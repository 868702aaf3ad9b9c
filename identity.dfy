/**
 * The pure parts of bringing the companion MCU up: recognising its id code,
 * decoding the boot flags, rendering the serial number, and choosing a newer
 * firmware image for the slot that is not running.
 */
module Identity {
  import opened Protocol

  /** The protocol version announced in the Identify command. */
  const PROTOCOL_VERSION: int := 1
  /** The id code every companion MCU answers with: "Fring". */
  const MAGIC: seq<bv8> := [0x46, 0x72, 0x69, 0x6E, 0x67]
  /** Where candidate firmware images are looked for (absolute path plus "/"). */
  const FIRMWARE_DIR: string := "/app/firmware/fring/"

  // ---- Id code ----

  predicate IsFringMagic(id: seq<bv8>) {
    |id| >= 5 && id[..5] == MAGIC
  }

  // ---- Boot flags ----

  predicate BootedFromB(flags: bv32) {
    flags & BOOT_STATUS_FIRMWARE_B != 0
  }

  /** The descriptions of the boot flags that the driver reports after bring-up. */
  function BootDescription(flags: bv32): (d: seq<string>)
    ensures 1 <= |d| <= 2
    ensures d[0] == (if BootedFromB(flags) then "booted from B" else "booted from A")
    ensures |d| == 2 <==> flags & BOOT_STATUS_BETA != 0
  {
    [if BootedFromB(flags) then "booted from B" else "booted from A"]
      + (if flags & BOOT_STATUS_BETA != 0 then ["beta version"] else [])
  }

  /** The file-name suffix of images for the slot that is NOT running. */
  function UpdateSuffix(flags: bv32): string {
    if BootedFromB(flags) then "bin-a" else "bin-b"
  }

  /** An update always targets the inactive slot. */
  lemma UpdateTargetsInactiveSlot(flags: bv32)
    ensures BootDescription(flags)[0] == "booted from A" <==> UpdateSuffix(flags) == "bin-b"
    ensures BootDescription(flags)[0] == "booted from B" <==> UpdateSuffix(flags) == "bin-a"
  {
  }

  // ---- Serial number ----

  /** A serial number that was never programmed reads back as all 0xFF. */
  predicate Blank(serial: seq<bv8>) {
    forall i :: 0 <= i < |serial| ==> serial[i] == 0xFF
  }

  /** The scan over the serial bytes, stopping at the first byte that is not 0xFF. */
  method AllFF(serial: seq<bv8>) returns (allFF: bool)
    ensures allFF == Blank(serial)
  {
    allFF := true;
    var i := 0;
    while i < |serial|
      invariant 0 <= i <= |serial|
      invariant forall j :: 0 <= j < i ==> serial[j] == 0xFF
    {
      if serial[i] != 0xFF {
        allFF := false;
        break;
      }
      i := i + 1;
    }
  }

  /** The serial the driver ends up with: the replacement when the MCU's one is blank. */
  function FinalSerial(serial: seq<bv8>, replacement: seq<bv8>): seq<bv8> {
    if Blank(serial) then replacement else serial
  }

  predicate IsHexDigit(c: char) {
    '0' <= c <= '9' || 'a' <= c <= 'f'
  }

  function HexDigit(n: nat): (c: char)
    requires n < 16
    ensures IsHexDigit(c)
  {
    if n < 10 then ('0' as int + n) as char else ('a' as int + n - 10) as char
  }

  function DigitValue(c: char): (n: nat)
    requires IsHexDigit(c)
    ensures n < 16
  {
    if c <= '9' then c as int - '0' as int else c as int - 'a' as int + 10
  }

  /** Lower-case hexadecimal, two characters per byte, high nibble first. */
  function Hex(bytes: seq<bv8>): (s: string)
    ensures |s| == 2 * |bytes|
    ensures forall i :: 0 <= i < |s| ==> IsHexDigit(s[i])
  {
    if bytes == [] then []
    else [HexDigit(bytes[0] as int / 16), HexDigit(bytes[0] as int % 16)] + Hex(bytes[1..])
  }

  /** The inverse reading of a hex string. */
  function Unhex(s: string): seq<bv8>
    requires |s| % 2 == 0 && forall i :: 0 <= i < |s| ==> IsHexDigit(s[i])
  {
    if s == [] then [] else [(DigitValue(s[0]) * 16 + DigitValue(s[1])) as bv8] + Unhex(s[2..])
  }

  lemma NibblesRoundTrip(v: nat)
    requires v < 256
    ensures DigitValue(HexDigit(v / 16)) * 16 + DigitValue(HexDigit(v % 16)) == v
  {
  }

  lemma ByteRoundTrip(b: bv8)
    ensures (DigitValue(HexDigit(b as int / 16)) * 16 + DigitValue(HexDigit(b as int % 16))) as bv8 == b
  {
    NibblesRoundTrip(b as int);
  }

  lemma UnhexPair(hi: char, lo: char, rest: string)
    requires IsHexDigit(hi) && IsHexDigit(lo)
    requires |rest| % 2 == 0 && forall i :: 0 <= i < |rest| ==> IsHexDigit(rest[i])
    ensures Unhex([hi, lo] + rest) == [(DigitValue(hi) * 16 + DigitValue(lo)) as bv8] + Unhex(rest)
  {
    assert ([hi, lo] + rest)[2..] == rest;
  }

  lemma UnhexCons(b: bv8, rest: string)
    requires |rest| % 2 == 0 && forall i :: 0 <= i < |rest| ==> IsHexDigit(rest[i])
    ensures Unhex([HexDigit(b as int / 16), HexDigit(b as int % 16)] + rest) == [b] + Unhex(rest)
  {
    UnhexPair(HexDigit(b as int / 16), HexDigit(b as int % 16), rest);
    ByteRoundTrip(b);
  }

  /** The rendered serial determines the bytes: no two serials share a rendering. */
  lemma {:induction false} UnhexHex(bytes: seq<bv8>)
    ensures Unhex(Hex(bytes)) == bytes
    decreases |bytes|
  {
    if bytes != [] {
      UnhexCons(bytes[0], Hex(bytes[1..]));
      UnhexHex(bytes[1..]);
      assert bytes == [bytes[0]] + bytes[1..];
    }
  }

  // ---- File names: QString::split and QString::toInt ----

  /** Split at every separator, keeping empty parts; never returns an empty list. */
  function Split(s: string, sep: char): (parts: seq<string>)
    ensures |parts| >= 1
    decreases |s|
  {
    if s == [] then [[]]
    else
      var rest := Split(s[1..], sep);
      if s[0] == sep then [[]] + rest else [[s[0]] + rest[0]] + rest[1..]
  }

  /** No part contains the separator. */
  lemma {:induction false} SplitHasNoSeparator(s: string, sep: char)
    ensures forall i :: 0 <= i < |Split(s, sep)| ==> sep !in Split(s, sep)[i]
    decreases |s|
  {
    if s != [] {
      SplitHasNoSeparator(s[1..], sep);
      var rest := Split(s[1..], sep);
      if s[0] != sep {
        assert sep !in rest[0];
        assert sep !in [s[0]] + rest[0];
      }
    }
  }

  /** The index of the first separator in s, or |s| when there is none. */
  function FirstSep(s: string, sep: char): (k: nat)
    ensures k <= |s| && sep !in s[..k] && (k < |s| ==> s[k] == sep)
    decreases |s|
  {
    if s == [] || s[0] == sep then 0
    else
      var k := 1 + FirstSep(s[1..], sep);
      assert s[..k] == [s[0]] + s[1..][..k - 1];
      k
  }

  /** The first part is everything before the first separator. */
  lemma {:induction false} SplitFirst(s: string, sep: char)
    ensures Split(s, sep)[0] == s[..FirstSep(s, sep)]
    decreases |s|
  {
    if s != [] && s[0] != sep {
      SplitFirst(s[1..], sep);
      assert s[..FirstSep(s, sep)] == [s[0]] + s[1..][..FirstSep(s[1..], sep)];
    }
  }

  /**
   * The last part ends s and holds no separator; it is all of s when there is one part,
   * and a separator comes right before it otherwise.
   */
  lemma {:induction false} SplitLast(s: string, sep: char)
    ensures var parts := Split(s, sep); var p := parts[|parts| - 1];
      && |p| <= |s| && s[|s| - |p|..] == p && sep !in p
      && (|parts| == 1 ==> p == s)
      && (|parts| > 1 ==> |p| < |s| && s[|s| - |p| - 1] == sep)
    decreases |s|
  {
    if s != [] {
      SplitLast(s[1..], sep);
      var rest := Split(s[1..], sep);
      SplitHasNoSeparator(s[1..], sep);
      if s[0] != sep && |rest| == 1 {
        assert [s[0]] + rest[0] == s;
      }
    }
  }

  /** No position of s inside its suffix p holds the separator when p has none. */
  lemma FreeSuffix(s: string, p: string, sep: char)
    requires |p| <= |s| && s[|s| - |p|..] == p && sep !in p
    ensures forall k :: |s| - |p| <= k < |s| ==> s[k] != sep
  {
    forall k | |s| - |p| <= k < |s| ensures s[k] != sep {
      assert s[k] == p[k - (|s| - |p|)];
    }
  }

  /** The last part is the separator-free ending of s that is all of s or follows a separator. */
  lemma LastPartIs(s: string, sep: char, q: string)
    requires |q| <= |s| && s[|s| - |q|..] == q && sep !in q
    requires q == s || (|q| < |s| && s[|s| - |q| - 1] == sep)
    ensures var parts := Split(s, sep); parts[|parts| - 1] == q
  {
    var parts := Split(s, sep);
    var p := parts[|parts| - 1];
    SplitLast(s, sep);
    FreeSuffix(s, p, sep);
    FreeSuffix(s, q, sep);
    assert |p| <= |q|;
    assert |q| <= |p|;
  }

  /**
   * A name's last dot-part is the wanted suffix exactly when the suffix has no dot and the name
   * is the suffix itself or ends with a dot followed by it.
   */
  lemma CandidateByEnding(name: string, suffix: string)
    ensures Candidate(name, suffix) <==>
      '.' !in suffix && (name == suffix || (|suffix| < |name| && name[|name| - |suffix| - 1..] == "." + suffix))
  {
    if Candidate(name, suffix) {
      SplitLast(name, '.');
      if name != suffix {
        assert name[|name| - |suffix| - 1..] == [name[|name| - |suffix| - 1]] + name[|name| - |suffix|..];
      }
    }
    if '.' !in suffix && (name == suffix || (|suffix| < |name| && name[|name| - |suffix| - 1..] == "." + suffix)) {
      if name != suffix {
        assert name[|name| - |suffix| - 1] == ("." + suffix)[0];
        assert name[|name| - |suffix|..] == name[|name| - |suffix| - 1..][1..];
      }
      LastPartIs(name, '.', suffix);
    }
  }

  /** A name's version is the number before its first dot (the whole name when it has none). */
  lemma VersionByPrefix(name: string)
    ensures Version(name) == ToInt(name[..FirstSep(name, '.')])
  {
    SplitFirst(name, '.');
  }

  function Join(parts: seq<string>, sep: char): string
    requires |parts| >= 1
    decreases |parts|
  {
    if |parts| == 1 then parts[0] else parts[0] + [sep] + Join(parts[1..], sep)
  }

  /** Splitting loses nothing: joining the parts gives the name back. */
  lemma {:induction false} JoinSplit(s: string, sep: char)
    ensures Join(Split(s, sep), sep) == s
    decreases |s|
  {
    if s != [] {
      var rest := Split(s[1..], sep);
      JoinSplit(s[1..], sep);
      if s[0] == sep {
        assert ([[]] + rest)[1..] == rest;
      } else {
        var parts := [[s[0]] + rest[0]] + rest[1..];
        if |rest| > 1 {
          assert parts[1..] == rest[1..];
        }
      }
    }
  }

  const INT_MIN: int := -0x8000_0000
  const INT_MAX: int := 0x7FFF_FFFF

  predicate IsDigit(c: char) {
    '0' <= c <= '9'
  }

  predicate AllDigits(s: string) {
    forall i :: 0 <= i < |s| ==> IsDigit(s[i])
  }

  /** The value of a string of decimal digits, most significant first. */
  function DigitsValue(s: string): nat
    requires AllDigits(s)
    decreases |s|
  {
    if s == [] then 0 else DigitsValue(s[..|s| - 1]) * 10 + (s[|s| - 1] as int - '0' as int)
  }

  /** An optional sign followed by at least one decimal digit. */
  function ParseDecimal(s: string): Option<int> {
    if |s| >= 2 && s[0] == '-' && AllDigits(s[1..]) then Some(-(DigitsValue(s[1..]) as int))
    else if |s| >= 2 && s[0] == '+' && AllDigits(s[1..]) then Some(DigitsValue(s[1..]))
    else if |s| >= 1 && AllDigits(s) then Some(DigitsValue(s))
    else None
  }

  /** Decimal conversion to a 32-bit int; 0 when the text is no number or out of range. */
  function ToInt(s: string): (n: int)
    ensures INT_MIN <= n <= INT_MAX
    ensures n != 0 ==> ParseDecimal(s) == Some(n)
  {
    match ParseDecimal(s)
    case Some(v) => if INT_MIN <= v <= INT_MAX then v else 0
    case None => 0
  }

  /** Decimal digits of a natural number, most significant first, without leading zeros. */
  function Digits(n: nat): (s: string)
    decreases n
  {
    if n < 10 then [('0' as int + n) as char] else Digits(n / 10) + [('0' as int + n % 10) as char]
  }

  /** The decimal rendering of an int, as version numbers are written in file names. */
  function Decimal(n: int): string {
    if n < 0 then "-" + Digits(-n) else Digits(n)
  }

  lemma {:induction false} DigitsValueOfDigits(n: nat)
    ensures |Digits(n)| >= 1 && AllDigits(Digits(n)) && DigitsValue(Digits(n)) == n
    decreases n
  {
    if n >= 10 {
      DigitsValueOfDigits(n / 10);
      var s := Digits(n);
      assert s[..|s| - 1] == Digits(n / 10);
    }
  }

  /** Every 32-bit version number written in decimal reads back as itself. */
  lemma ToIntDecimal(n: int)
    requires INT_MIN <= n <= INT_MAX
    ensures ToInt(Decimal(n)) == n
  {
    var s := Decimal(n);
    if n < 0 {
      DigitsValueOfDigits(-n);
      assert s[0] == '-' && s[1..] == Digits(-n);
      assert ParseDecimal(s) == Some(n);
    } else {
      DigitsValueOfDigits(n);
      assert IsDigit(s[0]);
      assert ParseDecimal(s) == Some(n);
    }
  }

  // ---- Firmware image selection ----

  /** The version a file name announces: its first dot-part as an int. */
  function Version(name: string): int {
    ToInt(Split(name, '.')[0])
  }

  /** The file name's last dot-part. */
  function Suffix(name: string): string {
    var parts := Split(name, '.');
    parts[|parts| - 1]
  }

  predicate Candidate(name: string, suffix: string) {
    Suffix(name) == suffix
  }

  /** What the scan sees of a directory entry: whether it is an image for the slot, and the version it announces. */
  datatype Entry = Entry(candidate: bool, version: int)

  /** The listing as the scan sees it, for the slot whose images end in suffix. */
  function Entries(files: seq<string>, suffix: string): (es: seq<Entry>)
    ensures |es| == |files|
  {
    seq(|files|, i requires 0 <= i < |files| => Entry(Candidate(files[i], suffix), Version(files[i])))
  }

  /** No candidate among the first n entries announces a version above the running one. */
  predicate NoneNewer(es: seq<Entry>, n: nat, running: int)
    requires n <= |es|
  {
    forall j :: 0 <= j < n && es[j].candidate ==> es[j].version <= running
  }

  /**
   * Among the first n entries, entry i is the earliest candidate with the
   * largest version, and that version is newer than the running one.
   */
  predicate IsNewest(es: seq<Entry>, n: nat, running: int, i: int)
    requires n <= |es|
  {
    && 0 <= i < n
    && es[i].candidate
    && es[i].version > running
    && (forall j :: 0 <= j < n && es[j].candidate ==> es[j].version <= es[i].version)
    && (forall j :: 0 <= j < i && es[j].candidate ==> es[j].version < es[i].version)
  }

  /**
   * The scan over the first n entries, as the loop performs it: the version to
   * beat (initially the running one) and the entry that set it, if any.
   */
  function Scan(es: seq<Entry>, running: int, n: nat): (r: (int, Option<nat>))
    requires n <= |es|
    ensures r.1.Some? ==> r.1.value < n
    decreases n
  {
    if n == 0 then (running, None)
    else
      var previous := Scan(es, running, n - 1);
      if es[n - 1].candidate && es[n - 1].version > previous.0 then (es[n - 1].version, Some(n - 1))
      else previous
  }

  /** The scan over the firmware directory listing. */
  method SelectUpdate(files: seq<string>, suffix: string, running: int) returns (available: int, newest: Option<nat>)
    ensures (available, newest) == Scan(Entries(files, suffix), running, |files|)
    ensures newest.None? <==> NoneNewer(Entries(files, suffix), |files|, running)
    ensures newest.None? ==> available == running
    ensures newest.Some? ==> IsNewest(Entries(files, suffix), |files|, running, newest.value)
    ensures newest.Some? ==> available == Version(files[newest.value])
  {
    ghost var es := Entries(files, suffix);
    available, newest := running, None;
    for i := 0 to |files|
      invariant (available, newest) == Scan(es, running, i)
    {
      var entry := Examine(files[i], suffix);
      assert es[i] == entry;
      if entry.candidate && entry.version > available {
        available := entry.version;
        newest := Some(i);
      }
    }
    ScanFindsNewest(es, running, |files|);
  }

  /**
   * One file name of the listing: split at the dots, a candidate when the last part is the suffix,
   * announcing the first part as its version.
   */
  method Examine(name: string, suffix: string) returns (entry: Entry)
    ensures entry.candidate <==> Candidate(name, suffix)
    ensures entry.version == Version(name)
    ensures entry.candidate <==>
      '.' !in suffix && (name == suffix || (|suffix| < |name| && name[|name| - |suffix| - 1..] == "." + suffix))
    ensures entry.version == ToInt(name[..FirstSep(name, '.')])
  {
    var parts := Split(name, '.');
    entry := Entry(parts[|parts| - 1] == suffix, ToInt(parts[0]));
    CandidateByEnding(name, suffix);
    VersionByPrefix(name);
  }

  /** The scan's result is the newest candidate above the running version, or nothing. */
  lemma {:induction false} ScanFindsNewest(es: seq<Entry>, running: int, n: nat)
    requires n <= |es|
    ensures var r := Scan(es, running, n);
      ScanState(es, n, running, r.1) && r.0 == Bar(es, running, r.1)
    decreases n
  {
    if n > 0 {
      ScanFindsNewest(es, running, n - 1);
      var previous := Scan(es, running, n - 1);
      if es[n - 1].candidate && es[n - 1].version > previous.0 {
        ScanTakes(es, n - 1, running, previous.1);
      } else {
        ScanSkips(es, n - 1, running, previous.1);
      }
    }
  }

  /** The best choice among n entries so far: none, or the newest one. */
  predicate ScanState(es: seq<Entry>, n: nat, running: int, newest: Option<nat>)
    requires n <= |es|
  {
    if newest.None? then NoneNewer(es, n, running)
    else IsNewest(es, n, running, newest.value)
  }

  /** The version to beat: the running one, or the newest found so far. */
  function Bar(es: seq<Entry>, running: int, newest: Option<nat>): int {
    if newest.Some? && newest.value < |es| then es[newest.value].version else running
  }

  /** An entry that is no candidate, or is no newer than the best so far, changes nothing. */
  lemma ScanSkips(es: seq<Entry>, n: nat, running: int, newest: Option<nat>)
    requires n < |es| && ScanState(es, n, running, newest)
    requires !es[n].candidate || es[n].version <= Bar(es, running, newest)
    ensures ScanState(es, n + 1, running, newest)
  {
  }

  /** A candidate newer than the best so far becomes the newest. */
  lemma ScanTakes(es: seq<Entry>, n: nat, running: int, newest: Option<nat>)
    requires n < |es| && ScanState(es, n, running, newest)
    requires es[n].candidate && es[n].version > Bar(es, running, newest)
    ensures IsNewest(es, n + 1, running, n)
  {
  }

  /** The selection is unambiguous. */
  lemma NewestUnique(es: seq<Entry>, running: int, i: int, k: int)
    requires IsNewest(es, |es|, running, i) && IsNewest(es, |es|, running, k)
    ensures i == k
  {
  }
}
