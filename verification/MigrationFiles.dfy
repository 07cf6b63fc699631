/** How `create` numbers a new migration: parsing the existing file names, formatting the next number,
    and where the new file lands among the others. */
module MigrationFiles {
  import opened GoStrings
  import opened Migrate

  const MAX_INT: int := 0x7FFF_FFFF_FFFF_FFFF   // int is 64 bits wide

  /******* Digits *******/

  predicate IsDigit(c: char) {
    '0' <= c <= '9'
  }

  /** White space as Go's unicode package defines it. */
  predicate IsSpace(c: char) {
    c in " \t\r\n" || c == 0xB as char || c == 0xC as char || c == 0x85 as char || c == 0xA0 as char ||
    c == 0x1680 as char ||
    0x2000 as char <= c <= 0x200A as char || c == 0x2028 as char || c == 0x2029 as char || c == 0x202F as char ||
    c == 0x205F as char || c == 0x3000 as char
  }

  predicate AllDigits(s: string) {
    forall i :: 0 <= i < |s| ==> IsDigit(s[i])
  }

  function Value(s: string): nat
    requires AllDigits(s)
  {
    if s == [] then 0 else 10 * Value(s[..|s| - 1]) + (s[|s| - 1] as int - '0' as int)
  }

  /** The leading digits of a string. */
  function DigitRun(s: string): (r: string)
    ensures r <= s && AllDigits(r)
    ensures |r| < |s| ==> !IsDigit(s[|r|])
  {
    if s == [] || !IsDigit(s[0]) then [] else [s[0]] + DigitRun(s[1..])
  }

  datatype Parsed = NoNumber | Number(value: int)

  /** `fmt.Sscanf(s, "%d", &seq)`: leading space, an optional sign, digits; anything may follow. A newline
      among the leading space, no digit, or a value beyond 64 bits is an error. */
  function ScanInt(s: string): (r: Parsed)
    ensures r.Number? ==> -MAX_INT - 1 <= r.value <= MAX_INT
  {
    if s == [] then NoNumber
    else if s[0] == '\n' || (s[0] == '\r' && |s| > 1 && s[1] == '\n') then NoNumber
    else if IsSpace(s[0]) then ScanInt(s[1..])
    else
      var negative := s[0] == '-';
      var digits := DigitRun(if s[0] in "+-" then s[1..] else s);
      if digits == [] then NoNumber
      else
        var v: int := if negative then 0 - Value(digits) else Value(digits);
        if -MAX_INT - 1 <= v <= MAX_INT then Number(v) else NoNumber
  }

  function Decimal(n: nat): (r: string)
    ensures |r| >= 1 && AllDigits(r)
  {
    var last := ((n % 10) + '0' as int) as char;
    if n < 10 then [last] else Decimal(n / 10) + [last]
  }

  function Zeros(n: nat): (r: string)
    ensures |r| == n && forall i :: 0 <= i < n ==> r[i] == '0'
  {
    seq(n, i => '0')
  }

  /** `fmt.Sprintf("%03d", n)`; the sign counts towards the width. */
  function Padded(n: int): string {
    var body := Decimal(if n < 0 then -n else n);
    var width := if n < 0 then 2 else 3;
    (if n < 0 then "-" else "") + (if |body| < width then Zeros(width - |body|) else []) + body
  }

  /******* The next number *******/

  /** The number that a directory entry contributes, if any. */
  function NumberOf(e: DirEntry): Parsed {
    if !e.isDir && (HasSuffix(e.name, ".up.sql") || HasSuffix(e.name, "_up.sql")) && '_' in e.name
    then ScanInt(e.name[..Index(e.name, '_')])
    else NoNumber
  }

  ghost predicate IsMaxNumber(entries: seq<DirEntry>, m: int) {
    && m >= 0
    && (m > 0 ==> exists i :: 0 <= i < |entries| && NumberOf(entries[i]) == Number(m))
    && (forall i :: 0 <= i < |entries| && NumberOf(entries[i]).Number? ==> NumberOf(entries[i]).value <= m)
  }

  lemma MaxNumberStep(entries: seq<DirEntry>, e: DirEntry, m: int)
    requires IsMaxNumber(entries, m)
    ensures IsMaxNumber(entries + [e], if NumberOf(e).Number? && NumberOf(e).value > m then NumberOf(e).value else m)
  {
    var all := entries + [e];
    assert all[|entries|] == e && forall i :: 0 <= i < |entries| ==> all[i] == entries[i];
  }

  function Wrapped(n: int): int {
    if n > MAX_INT then n - 0x1_0000_0000_0000_0000 else n
  }

  /** One more than the largest number found, or 1 when the directory cannot be read. */
  method GetNextMigrationSequence(listing: Listing) returns (next: int)
    ensures listing.ReadError? ==> next == 1
    ensures listing.Entries? ==> exists m :: IsMaxNumber(listing.entries, m) && next == Wrapped(m + 1)
  {
    if listing.ReadError? {
      return 1;
    }
    var entries := listing.entries;
    var maxSeq := 0;
    for i := 0 to |entries|
      invariant IsMaxNumber(entries[..i], maxSeq) && maxSeq <= MAX_INT
    {
      MaxNumberStep(entries[..i], entries[i], maxSeq);
      assert entries[..i + 1] == entries[..i] + [entries[i]];
      if entries[i].isDir {
        continue;
      }
      var filename := entries[i].name;
      if HasSuffix(filename, ".up.sql") || HasSuffix(filename, "_up.sql") {
        var idx := Index(filename, '_');
        if idx >= 0 {
          var seqno := ScanInt(filename[..idx]);
          if seqno.Number? {
            if seqno.value > maxSeq {
              maxSeq := seqno.value;
            }
          }
        }
      }
    }
    assert entries[..|entries|] == entries;
    assert IsMaxNumber(entries, maxSeq);
    return Wrapped(maxSeq + 1);
  }

  ghost predicate AllNumbersBelow(entries: seq<DirEntry>, n: int) {
    forall i :: 0 <= i < |entries| && NumberOf(entries[i]).Number? ==> NumberOf(entries[i]).value < n
  }

  /** The new number exceeds every existing one exactly when the largest is not the largest int. */
  lemma NextExceedsAll(entries: seq<DirEntry>, m: int)
    requires IsMaxNumber(entries, m)
    ensures AllNumbersBelow(entries, Wrapped(m + 1)) <==> m < 9_223_372_036_854_775_807
  {
    if m > 0 {
      var i :| 0 <= i < |entries| && NumberOf(entries[i]) == Number(m);
      assert NumberOf(entries[i]).value <= MAX_INT;
    }
  }

  /** Every directory has one largest number, which is 0 when there is no positive one, so numbers start at 1. */
  lemma LargestNumber(entries: seq<DirEntry>, m: int, n: int)
    requires IsMaxNumber(entries, m) && IsMaxNumber(entries, n)
    ensures m == n && (m == 0 <==> AllNumbersBelow(entries, 1))
  {
  }

  /******* What a number in a file name is *******/

  /** White space that is not the end of a line. */
  predicate Blank(s: string) {
    forall i :: 0 <= i < |s| ==> IsSpace(s[i]) && s[i] != '\n' && s[i] != '\r'
  }

  /** The value that Sscanf gives back for a parsed integer, or an error beyond 64 bits. */
  function InRange(v: int): Parsed {
    if -9_223_372_036_854_775_808 <= v <= 9_223_372_036_854_775_807 then Number(v) else NoNumber
  }

  lemma ScanUnsigned(digits: string, rest: string)
    requires AllDigits(digits) && digits != [] && (rest != [] ==> !IsDigit(rest[0]))
    ensures ScanInt(digits + rest) == InRange(Value(digits))
  {
    RunOfDigits(digits, rest);
    assert IsDigit((digits + rest)[0]);
  }

  lemma ScanSigned(sign: char, s: string, digits: string)
    requires sign in "+-" && DigitRun(s) == digits && digits != []
    ensures ScanInt([sign] + s) == InRange(if sign == '-' then 0 - Value(digits) else Value(digits))
  {
    assert ([sign] + s)[1..] == s;
  }

  lemma {:induction false} ScanBlanks(blanks: string, s: string)
    requires Blank(blanks)
    ensures ScanInt(blanks + s) == ScanInt(s)
  {
    if blanks == [] {
      assert blanks + s == s;
    } else {
      assert (blanks + s)[0] == blanks[0] && (blanks + s)[1..] == blanks[1..] + s;
      ScanBlanks(blanks[1..], s);
    }
  }

  /** Blanks, then a sign or none, then digits, then anything but a digit: the signed value, if 64 bits hold it. */
  lemma ScanMeaning(blanks: string, sign: string, digits: string, rest: string)
    requires Blank(blanks) && sign in {"", "+", "-"} && AllDigits(digits) && digits != []
    requires rest != [] ==> !IsDigit(rest[0])
    ensures
      ScanInt(blanks + (sign + (digits + rest))) == InRange(if sign == "-" then 0 - Value(digits) else Value(digits))
  {
    ScanBlanks(blanks, sign + (digits + rest));
    if sign == "" {
      ScanUnsigned(digits, rest);
      EmptyInFront(digits + rest);
    } else {
      RunOfDigits(digits, rest);
      ScanSigned(sign[0], digits + rest, digits);
      OneInFront(sign, digits + rest);
    }
  }

  lemma EmptyInFront(s: string)
    ensures "" + s == s
  {
  }

  lemma OneInFront(sign: string, s: string)
    requires |sign| == 1
    ensures [sign[0]] + s == sign + s
  {
  }

  /** No number: nothing, a line end in front, or no digit after the sign. */
  lemma ScanRefuses(s: string, sign: string)
    requires sign in {"", "+", "-"}
    ensures ScanInt("\n" + s) == NoNumber
    ensures (s == [] || (!IsDigit(s[0]) && !IsSpace(s[0]) && s[0] !in "+-")) ==> ScanInt(sign + s) == NoNumber
  {
    if sign == "" {
      assert sign + s == s;
    } else {
      assert (sign + s)[0] == sign[0] && (sign + s)[1..] == s;
    }
  }

  lemma {:induction false} RunOfDigits(digits: string, rest: string)
    requires AllDigits(digits) && (rest != [] ==> !IsDigit(rest[0]))
    ensures DigitRun(digits + rest) == digits
  {
    if digits == [] {
      assert digits + rest == rest;
    } else {
      assert IsDigit(digits[0]) && (digits + rest)[1..] == digits[1..] + rest;
      RunOfDigits(digits[1..], rest);
    }
  }

  /** An entry counts with the number before its first underscore when it is a file, not a directory, that ends in
      ".up.sql" or "_up.sql". */
  lemma NumberOfMeaning(digits: string, rest: string, isDir: bool)
    requires AllDigits(digits) && digits != [] && Value(digits) <= MAX_INT
    ensures
      var file := digits + "_" + rest;
      NumberOf(DirEntry(file, isDir)) ==
        if !isDir && (HasSuffix(file, ".up.sql") || HasSuffix(file, "_up.sql")) then Number(Value(digits)) else NoNumber
  {
    var file := digits + "_" + rest;
    assert digits + "_" <= file;
    FirstUnderscore(digits, file);
    ScanDigits(digits);
    assert file[..|digits|] == digits && '_' in file;
  }

  lemma UncountedEntries(name: string, isDir: bool)
    ensures isDir || '_' !in name || !(HasSuffix(name, ".up.sql") || HasSuffix(name, "_up.sql")) ==>
      NumberOf(DirEntry(name, isDir)) == NoNumber
  {
  }

  /******* Parsing inverts formatting *******/

  lemma {:induction false} ValueOfDecimal(n: nat)
    ensures Value(Decimal(n)) == n
  {
    var d := Decimal(n);
    if n >= 10 {
      ValueOfDecimal(n / 10);
      assert d[..|d| - 1] == Decimal(n / 10);
    } else {
      assert d[..0] == [];
    }
  }

  lemma {:induction false} LeadingZeros(k: nat, s: string)
    requires AllDigits(s)
    ensures AllDigits(Zeros(k) + s) && Value(Zeros(k) + s) == Value(s)
  {
    var t := Zeros(k) + s;
    if s != [] {
      assert t[..|t| - 1] == Zeros(k) + s[..|s| - 1];
      LeadingZeros(k, s[..|s| - 1]);
    } else if k > 0 {
      assert t[..|t| - 1] == Zeros(k - 1) + s;
      LeadingZeros(k - 1, s);
    }
  }

  lemma PaddedIsNumber(n: nat)
    ensures AllDigits(Padded(n)) && |Padded(n)| >= 3 && Value(Padded(n)) == n
  {
    var body := Decimal(n);
    ValueOfDecimal(n);
    if |body| < 3 {
      LeadingZeros(3 - |body|, body);
      assert Padded(n) == Zeros(3 - |body|) + body;
    } else {
      assert Padded(n) == body;
    }
  }

  lemma {:induction false} DigitRunOfDigits(s: string)
    requires AllDigits(s)
    ensures DigitRun(s) == s
  {
    if s != [] {
      DigitRunOfDigits(s[1..]);
    }
  }

  /** A digit string scans to its value. */
  lemma ScanDigits(s: string)
    requires AllDigits(s) && s != [] && Value(s) <= MAX_INT
    ensures ScanInt(s) == Number(Value(s))
  {
    DigitRunOfDigits(s);
    assert IsDigit(s[0]);
  }

  lemma FirstUnderscore(p: string, file: string)
    requires '_' !in p && p + "_" <= file
    ensures Index(file, '_') == |p|
  {
    var idx := Index(file, '_');
    assert (p + "_")[|p|] == '_' && file[|p|] == '_';
    assert forall i :: 0 <= i < |p| ==> file[i] == p[i] && p[i] in p;
  }

  /** The name that `create` gives to the up file of an unnumbered migration. */
  function CreatedFile(n: int, name: string): string {
    Padded(n) + "_" + name + ".up.sql"
  }

  lemma CreatedFileShape(n: int, name: string)
    ensures Padded(n) + "_" <= CreatedFile(n, name) && HasSuffix(CreatedFile(n, name), ".up.sql")
  {
    var head := Padded(n) + "_" + name;
    assert CreatedFile(n, name) == head + ".up.sql" && Padded(n) + "_" <= head;
  }

  /** A number printed with %03d is read back from any up file name that starts with it. */
  lemma PrefixRoundTrip(n: nat, file: string)
    requires n <= MAX_INT && Padded(n) + "_" <= file && HasSuffix(file, ".up.sql")
    ensures NumberOf(DirEntry(file, false)) == Number(n)
  {
    var p := Padded(n);
    PaddedIsNumber(n);
    FirstUnderscore(p, file);
    assert file[..|p|] == p && '_' in file;
    ScanDigits(p);
  }

  /** The number of a file made by `create` is read back from its name, negative ones included. */
  lemma CreatedNameRoundTrip(n: int, name: string)
    requires -MAX_INT - 1 <= n <= MAX_INT
    ensures NumberOf(DirEntry(CreatedFile(n, name), false)) == Number(n)
  {
    CreatedFileShape(n, name);
    if n >= 0 {
      PrefixRoundTrip(n, CreatedFile(n, name));
    } else {
      NegativeRoundTrip(n, CreatedFile(n, name));
    }
  }

  lemma NegativeRoundTrip(n: int, file: string)
    requires -MAX_INT - 1 <= n < 0 && Padded(n) + "_" <= file && HasSuffix(file, ".up.sql")
    ensures NumberOf(DirEntry(file, false)) == Number(n)
  {
    FirstUnderscoreOf(n, file);
    NegativeScans(n);
  }

  lemma NegativeScans(n: int)
    requires -MAX_INT - 1 <= n < 0
    ensures ScanInt(Padded(n)) == Number(n)
  {
    var digits := NegativeDigits(n);
    DigitRunOfDigits(digits);
    ScanSigned('-', digits, digits);
    OneInFront("-", digits);
  }

  lemma FirstUnderscoreOf(n: int, file: string)
    requires n < 0 && Padded(n) + "_" <= file
    ensures '_' in file && file[..Index(file, '_')] == Padded(n)
  {
    var digits := NegativeDigits(n);
    FirstUnderscore(Padded(n), file);
  }

  lemma NegativeDigits(n: int) returns (digits: string)
    requires n < 0
    ensures AllDigits(digits) && digits != [] && Value(digits) == -n && Padded(n) == "-" + digits && '_' !in Padded(n)
  {
    var body := Decimal(-n);
    var zeros := if |body| < 2 then Zeros(2 - |body|) else [];
    digits := zeros + body;
    ValueOfDecimal(-n);
    if |body| < 2 {
      LeadingZeros(2 - |body|, body);
    } else {
      assert digits == body;
    }
    assert Padded(n) == "-" + digits;
    assert forall i :: 0 <= i < |digits| ==> IsDigit(digits[i]);
  }

  /** Below the largest int, an unnumbered `create` never overwrites an existing up file. */
  lemma CreatedFileIsNew(entries: seq<DirEntry>, m: int, name: string)
    requires IsMaxNumber(entries, m) && m < MAX_INT
    ensures DirEntry(CreatedFile(Wrapped(m + 1), name), false) !in entries
  {
    CreatedNameRoundTrip(m + 1, name);
  }

  /******* The name that create builds *******/

  function TrimLeft(s: string): (r: string)
    ensures r == [] || !IsSpace(r[0])
  {
    if s != [] && IsSpace(s[0]) then TrimLeft(s[1..]) else s
  }

  function TrimRight(s: string): (r: string)
    ensures r <= s && (r == [] || !IsSpace(r[|r| - 1]))
  {
    if s != [] && IsSpace(s[|s| - 1]) then TrimRight(s[..|s| - 1]) else s
  }

  function TrimSpace(s: string): string {
    TrimRight(TrimLeft(s))
  }

  /** Spaces and hyphens become underscores, then letters become lower case. */
  function NormalChar(c: char): char {
    if c == ' ' || c == '-' then '_'
    else if 'A' <= c <= 'Z' then (c as int + 32) as char
    else c
  }

  function Normalized(name: string): string {
    var t := TrimSpace(name);
    seq(|t|, i requires 0 <= i < |t| => NormalChar(t[i]))
  }

  /** Three digits or more, then an underscore. */
  predicate Numbered(name: string) {
    var digits := DigitRun(name);
    |digits| >= 3 && |digits| < |name| && name[|digits|] == '_'
  }

  /** The base name of the two files: a name that already has a number keeps it. */
  function BaseName(name: string, next: int): string {
    var n := Normalized(name);
    if Numbered(n) then n else Padded(next) + "_" + n
  }

  /** Trimming takes off white space at both ends and nothing else. */
  lemma TrimMeaning(name: string) returns (left: string, right: string)
    ensures name == left + TrimSpace(name) + right
    ensures forall c :: c in left + right ==> NoText(c)
    ensures var t := TrimSpace(name); t != [] ==> t[0] !in " \t\r\n" && t[|t| - 1] !in " \t\r\n"
  {
    left := TrimmedLeft(name);
    right := TrimmedRight(TrimLeft(name));
    var t := TrimSpace(name);
    assert name == left + (t + right) == left + t + right;
    forall c | c in left + right ensures NoText(c) {
      SpaceIsNoText(c);
    }
    if t != [] {
      assert t[0] == TrimLeft(name)[0];
      SpacesAreSpace(t[0]);
      SpacesAreSpace(t[|t| - 1]);
    }
  }

  predicate NoText(c: char) {
    !IsDigit(c) && !('a' <= c <= 'z') && !('A' <= c <= 'Z') && c !in "_-.+"
  }

  lemma SpaceIsNoText(c: char)
    requires IsSpace(c)
    ensures NoText(c)
  {
  }

  lemma SpacesAreSpace(c: char)
    ensures c in " \t\r\n" ==> IsSpace(c)
  {
  }

  lemma {:induction false} TrimmedLeft(s: string) returns (left: string)
    ensures s == left + TrimLeft(s) && forall c :: c in left ==> IsSpace(c)
  {
    if s != [] && IsSpace(s[0]) {
      left := TrimmedLeft(s[1..]);
      left := [s[0]] + left;
      assert s == [s[0]] + s[1..];
    } else {
      left := [];
    }
  }

  lemma {:induction false} TrimmedRight(s: string) returns (right: string)
    ensures s == TrimRight(s) + right && forall c :: c in right ==> IsSpace(c)
  {
    if s != [] && IsSpace(s[|s| - 1]) {
      right := TrimmedRight(s[..|s| - 1]);
      right := right + [s[|s| - 1]];
      assert s == s[..|s| - 1] + [s[|s| - 1]];
    } else {
      right := [];
    }
  }

  /** Spaces and hyphens become underscores, capitals their small letters, and every other character stays. */
  lemma NormalizedMeaning(name: string, i: nat)
    requires i < |TrimSpace(name)|
    ensures |Normalized(name)| == |TrimSpace(name)|
    ensures var c, d := TrimSpace(name)[i], Normalized(name)[i];
      && (c in " -" ==> d == '_')
      && ('A' <= c <= 'Z' ==> 'a' <= d <= 'z' && d as int - 'a' as int == c as int - 'A' as int)
      && (c !in " -" && !('A' <= c <= 'Z') ==> d == c)
  {
  }

  /** So a built name holds no space, no hyphen and no capital. */
  lemma BuiltNameIsPlain(name: string, next: nat)
    ensures Plain(BaseName(name, next))
  {
    PaddedIsNumber(next);
    NormalizedIsPlain(name);
    DigitsArePlain(Padded(next));
  }

  predicate Plain(s: string) {
    forall c :: c in s ==> c != ' ' && c != '-' && !('A' <= c <= 'Z')
  }

  lemma NormalizedIsPlain(name: string)
    ensures Plain(Normalized(name))
  {
    var n := Normalized(name);
    forall c | c in n ensures c != ' ' && c != '-' && !('A' <= c <= 'Z') {
      var i :| 0 <= i < |n| && n[i] == c;
      NormalizedMeaning(name, i);
    }
  }

  lemma DigitsArePlain(s: string)
    requires AllDigits(s)
    ensures Plain(s)
  {
    assert forall c :: c in s ==> IsDigit(c);
  }

  /** Exactly the names that begin with three digits or more and an underscore count as numbered. */
  lemma NumberedMeaning(s: string)
    ensures Numbered(s) <==> exists digits :: AllDigits(digits) && |digits| >= 3 && digits + "_" <= s
  {
    if Numbered(s) {
      var digits := DigitRun(s);
      assert digits + "_" <= s;
    }
    if digits :| AllDigits(digits) && |digits| >= 3 && digits + "_" <= s {
      DigitRunStops(digits, s);
      assert (digits + "_")[|digits|] == s[|digits|];
    }
  }

  /** A string that no part of the normalisation touches. */
  ghost predicate Settled(s: string) {
    && (forall i :: 0 <= i < |s| ==> NormalChar(s[i]) == s[i])
    && (s != [] ==> !IsSpace(s[0]) && !IsSpace(s[|s| - 1]))
  }

  lemma SettledStays(s: string)
    requires Settled(s)
    ensures Normalized(s) == s
  {
  }

  lemma NormalizedIsSettled(name: string)
    ensures Settled(Normalized(name))
  {
    var l := TrimLeft(name);
    var t := TrimRight(l);
    if t != [] {
      assert t[0] == l[0];
    }
  }

  /** Typing the name that create builds builds it again, exactly when it is numbered; and it is numbered
      unless the number added in front is negative, which it is when the largest int is in use. */
  lemma BaseNameIsStable(name: string, next: int, later: int)
    ensures Numbered(BaseName(name, next)) <==> Numbered(Normalized(name)) || next >= 0
    ensures BaseName(BaseName(name, next), later) == BaseName(name, next) <==> Numbered(BaseName(name, next))
  {
    var n := Normalized(name);
    NormalizedIsSettled(name);
    if !Numbered(n) && next < 0 {
      NegativeBaseName(n, next, later);
    } else if !Numbered(n) {
      PaddedIsNumber(next);
      NumberedName(Padded(next), n);
      SettledStays(Padded(next) + "_" + n);
    } else {
      SettledStays(n);
    }
  }

  lemma NegativeBaseName(n: string, next: int, later: int)
    requires next < 0 && Settled(n)
    ensures var s := Padded(next) + "_" + n; !Numbered(s) && BaseName(s, later) != s
  {
    var s := Padded(next) + "_" + n;
    assert s[0] == '-' && !IsDigit('-') && !IsSpace('-');
    assert !IsSpace(s[|s| - 1]) by {
      if n == [] {
        assert s[|s| - 1] == '_';
      } else {
        assert s[|s| - 1] == n[|n| - 1];
      }
    }
    assert TrimSpace(s) == s;
    assert Normalized(s)[0] == '_' && !Numbered(Normalized(s));
    assert |BaseName(s, later)| > |s|;
  }

  lemma NumberedName(p: string, n: string)
    requires AllDigits(p) && |p| >= 3 && Settled(n)
    ensures Numbered(p + "_" + n) && Settled(p + "_" + n)
  {
    var s := p + "_" + n;
    assert p + "_" <= s;
    DigitRunStops(p, s);
    assert forall i :: 0 <= i < |p| ==> s[i] == p[i] && IsDigit(p[i]);
    assert forall i :: |p| < i < |s| ==> s[i] == n[i - |p| - 1];
    assert s[|p|] == '_';
  }

  /** The base name of the files that `create` writes, or nothing for a blank name. */
  method CreateMigrationFile(listing: Listing, name: string) returns (ok: bool, base: string)
    ensures ok <==> TrimSpace(name) != []
    ensures ok && Numbered(Normalized(name)) ==> base == Normalized(name)
    ensures ok && listing.ReadError? && !Numbered(Normalized(name)) ==> base == Padded(1) + "_" + Normalized(name)
    ensures ok && listing.Entries? && !Numbered(Normalized(name)) ==>
      exists m :: IsMaxNumber(listing.entries, m) && base + ".up.sql" == CreatedFile(Wrapped(m + 1), Normalized(name))
  {
    if TrimSpace(name) == [] {
      return false, "";
    }
    var n := Normalized(name);
    if Numbered(n) {
      return true, n;
    }
    var nextSeq := GetNextMigrationSequence(listing);
    base := Padded(nextSeq) + "_" + n;
    return true, base;
  }

  /** Creating a migration overwrites an existing up file exactly when the typed name carries its own
      number and that file is already there, or when the largest int is in use and the file with the
      wrapped number is already there. */
  lemma CreateOverwritesIff(entries: seq<DirEntry>, m: int, name: string)
    requires IsMaxNumber(entries, m)
    ensures DirEntry(BaseName(name, Wrapped(m + 1)) + ".up.sql", false) in entries
       <==> if Numbered(Normalized(name)) then DirEntry(Normalized(name) + ".up.sql", false) in entries
            else m == MAX_INT && DirEntry(CreatedFile(-MAX_INT - 1, Normalized(name)), false) in entries
  {
    MaxNumberFits(entries, m);
    if m < MAX_INT {
      CreatedFileIsNew(entries, m, Normalized(name));
    }
  }

  lemma MaxNumberFits(entries: seq<DirEntry>, m: int)
    requires IsMaxNumber(entries, m)
    ensures m <= MAX_INT
  {
    if m > 0 {
      var i :| 0 <= i < |entries| && NumberOf(entries[i]) == Number(m);
    }
  }

  lemma {:induction false} DigitRunStops(p: string, s: string)
    requires AllDigits(p) && p + "_" <= s
    ensures DigitRun(s) == p
  {
    assert (p + "_")[|p|] == '_' && s[|p|] == '_';
    if p != [] {
      assert s[0] == p[0] && (p + "_")[1..] == p[1..] + "_";
      DigitRunStops(p[1..], s[1..]);
    }
  }

  /******* Where the new file sorts *******/

  /** A name with a prefix of exactly three digits. */
  predicate ThreeDigits(file: string) {
    |file| >= 4 && AllDigits(file[..3]) && file[3] == '_'
  }

  lemma DigitValueBound(s: string)
    requires AllDigits(s) && |s| == 3
    ensures Value(s) == 100 * (s[0] as int - '0' as int) + 10 * (s[1] as int - '0' as int) + (s[2] as int - '0' as int)
    ensures Value(s) <= 999
  {
    assert s[..2] == [s[0], s[1]] && s[..2][..1] == [s[0]] && s[..2][..1][..0] == [];
    assert Value([s[0]]) == s[0] as int - '0' as int;
    assert Value([s[0], s[1]]) == 10 * (s[0] as int - '0' as int) + (s[1] as int - '0' as int) by {
      assert [s[0], s[1]][..1] == [s[0]];
    }
  }

  lemma NumberOfThreeDigits(file: string)
    requires ThreeDigits(file) && HasSuffix(file, ".up.sql")
    ensures NumberOf(DirEntry(file, false)) == Number(Value(file[..3]))
  {
    assert file[..3] + "_" <= file;
    FirstUnderscore(file[..3], file);
    DigitValueBound(file[..3]);
    ScanDigits(file[..3]);
  }

  /** Smaller three-digit prefixes sort first. */
  lemma ThreeDigitOrder(a: string, b: string)
    requires |a| >= 3 && |b| >= 3 && AllDigits(a[..3]) && AllDigits(b[..3]) && Value(a[..3]) < Value(b[..3])
    ensures Lt(a, b)
  {
    DigitValueBound(a[..3]);
    DigitValueBound(b[..3]);
    var x, y := a[..3], b[..3];
    assert IsDigit(x[0]) && IsDigit(x[1]) && IsDigit(x[2]) && IsDigit(y[0]) && IsDigit(y[1]) && IsDigit(y[2]);
    var i := if x[0] != y[0] then 0 else if x[1] != y[1] then 1 else 2;
    assert a[..i] == b[..i];
    LtAtDifference(a, b, i);
  }

  lemma {:induction false} DecimalLength(n: nat, k: nat)
    requires k >= 1 && n < Pow10(k)
    ensures |Decimal(n)| <= k
  {
    if n >= 10 {
      assert k > 1;
      DecimalLength(n / 10, k - 1);
    }
  }

  function Pow10(k: nat): nat {
    if k == 0 then 1 else 10 * Pow10(k - 1)
  }

  /** Next to existing three-digit names, a new file whose number is at most 999 sorts after all of them,
      so the next up runs it last. */
  lemma CreatedFileRunsLast(entries: seq<DirEntry>, m: int, name: string)
    requires IsMaxNumber(entries, m) && m + 1 <= 999
    requires forall f :: f in UpFileNames(entries) ==> ThreeDigits(f)
    ensures forall f :: f in UpFileNames(entries) ==> Lt(f, CreatedFile(Wrapped(m + 1), name))
  {
    CreatedFileShape(m + 1, name);
    forall f | f in UpFileNames(entries) ensures Lt(f, CreatedFile(m + 1, name)) {
      var i :| 0 <= i < |entries| && entries[i].name == f && IsUpFile(entries[i]);
      NumberOfThreeDigits(f);
      assert NumberOf(entries[i]).value <= m;
      LargerNumberSortsAfter(f, m + 1, CreatedFile(m + 1, name));
    }
  }

  lemma LargerNumberSortsAfter(f: string, n: nat, file: string)
    requires ThreeDigits(f) && Value(f[..3]) < n <= 999 && Padded(n) + "_" <= file
    ensures Lt(f, file)
  {
    var p := Padded(n);
    PaddedIsNumber(n);
    assert Pow10(3) == 1000 by { assert Pow10(1) == 10 && Pow10(2) == 100; }
    DecimalLength(n, 3);
    assert |p| == 3 && file[..3] == p;
    ThreeDigitOrder(f, file);
  }

  /** The number in front of a three-digit name. */
  function Prefix(file: string): nat {
    if ThreeDigits(file) then Value(file[..3]) else 0
  }

  /** The first three digits of a number of at least three digits. */
  function Lead(n: nat): nat {
    if n < 1000 then n else Lead(n / 10)
  }

  lemma {:induction false} LeadOfDecimal(n: nat)
    requires n >= 100
    ensures |Decimal(n)| >= 3 && Value(Decimal(n)[..3]) == Lead(n) && (n >= 1000 ==> |Decimal(n)| >= 4)
  {
    if n < 1000 {
      ValueOfDecimal(n);
      assert |Decimal(n / 10 / 10)| == 1 && |Decimal(n / 10)| == 2 && |Decimal(n)| == 3;
      assert Decimal(n)[..3] == Decimal(n);
    } else {
      LeadOfDecimal(n / 10);
      assert Decimal(n)[..3] == Decimal(n / 10)[..3];
    }
  }

  /** A number of four or more digits sorts before exactly the files whose three digits are at least its
      first three. */
  lemma LongNumberPlace(n: nat, file: string, f: string)
    requires n >= 1000 && Padded(n) + "_" <= file && ThreeDigits(f)
    ensures Lt(file, f) <==> Lead(n) <= Prefix(f)
    ensures Lt(f, file) <==> Prefix(f) < Lead(n)
  {
    var p := Padded(n);
    LeadOfDecimal(n);
    assert p == Decimal(n) && file[..3] == p[..3] && file[3] == p[3] && IsDigit(p[3]);
    if Lead(n) < Value(f[..3]) {
      ThreeDigitOrder(file, f);
      LtAsymmetric(file, f);
    } else if Value(f[..3]) < Lead(n) {
      ThreeDigitOrder(f, file);
      LtAsymmetric(f, file);
    } else {
      ThreeDigitsByValue(file[..3], f[..3]);
      LtAtDifference(file, f, 3);
      LtAsymmetric(file, f);
    }
  }

  lemma ThreeDigitsByValue(s: string, t: string)
    requires AllDigits(s) && AllDigits(t) && |s| == |t| == 3 && Value(s) == Value(t)
    ensures s == t
  {
    DigitValueBound(s);
    DigitValueBound(t);
    assert forall i :: 0 <= i < 3 ==> IsDigit(s[i]) && IsDigit(t[i]);
    var zero := '0' as int;
    SameThreeDigits(s[0] as int - zero, s[1] as int - zero, s[2] as int - zero,
                    t[0] as int - zero, t[1] as int - zero, t[2] as int - zero);
  }

  lemma SameThreeDigits(a: int, b: int, c: int, x: int, y: int, z: int)
    requires 0 <= a <= 9 && 0 <= b <= 9 && 0 <= c <= 9 && 0 <= x <= 9 && 0 <= y <= 9 && 0 <= z <= 9
    requires 100 * a + 10 * b + c == 100 * x + 10 * y + z
    ensures a == x && b == y && c == z
  {
  }

  /** A negative number sorts before every name that starts with a digit. */
  lemma NegativeSortsFirst(n: int, name: string, f: string)
    requires n < 0 && ThreeDigits(f)
    ensures Lt(CreatedFile(n, name), f) && !Lt(f, CreatedFile(n, name))
  {
    var file := CreatedFile(n, name);
    assert file[0] == '-' && IsDigit(f[..3][0]);
    LtAtDifference(file, f, 0);
    LtAsymmetric(file, f);
  }

  /** Exactly when the new file sorts after all others: its number has three digits; or every existing number
      is below its first three digits, unless the number wraps and so comes before all. */
  lemma CreatedFileRunsLastIff(entries: seq<DirEntry>, m: int, name: string)
    requires IsMaxNumber(entries, m)
    requires forall f :: f in UpFileNames(entries) ==> ThreeDigits(f)
    ensures (forall f :: f in UpFileNames(entries) ==> Lt(f, CreatedFile(Wrapped(m + 1), name)))
       <==> forall f :: f in UpFileNames(entries) ==> m + 1 <= 999 || (m < MAX_INT && Prefix(f) < Lead(m + 1))
  {
    MaxNumberFits(entries, m);
    if m + 1 <= 999 {
      CreatedFileRunsLast(entries, m, name);
    } else {
      forall f | f in UpFileNames(entries)
        ensures Lt(f, CreatedFile(Wrapped(m + 1), name)) <==> m < MAX_INT && Prefix(f) < Lead(m + 1)
      {
        if m < MAX_INT {
          CreatedFileShape(m + 1, name);
          LongNumberPlace(m + 1, CreatedFile(m + 1, name), f);
        } else {
          NegativeSortsFirst(Wrapped(m + 1), name, f);
        }
      }
    }
  }

  /** So when every numbered entry is an up file, 999 is the limit: 1000 comes right before 100. */
  lemma ThousandthFileDoesNotRunLast(entries: seq<DirEntry>, m: int, name: string)
    requires IsMaxNumber(entries, m)
    requires forall f :: f in UpFileNames(entries) ==> ThreeDigits(f)
    requires forall i :: 0 <= i < |entries| && NumberOf(entries[i]).Number? ==> IsUpFile(entries[i])
    ensures (forall f :: f in UpFileNames(entries) ==> Lt(f, CreatedFile(Wrapped(m + 1), name))) <==> m + 1 <= 999
  {
    CreatedFileRunsLastIff(entries, m, name);
    if m + 1 > 999 {
      var f := LastNumberedFile(entries, m);
      LeadOfThousand();
      assert m == 999;
    }
  }

  lemma LeadOfThousand()
    ensures Lead(1000) == 100
  {
    assert Lead(100) == 100;
  }

  lemma LastNumberedFile(entries: seq<DirEntry>, m: int) returns (f: string)
    requires IsMaxNumber(entries, m) && m > 0
    requires forall f :: f in UpFileNames(entries) ==> ThreeDigits(f)
    requires forall i :: 0 <= i < |entries| && NumberOf(entries[i]).Number? ==> IsUpFile(entries[i])
    ensures f in UpFileNames(entries) && ThreeDigits(f) && Value(f[..3]) == m <= 999
  {
    var i :| 0 <= i < |entries| && NumberOf(entries[i]) == Number(m);
    f := entries[i].name;
    NumberOfThreeDigits(f);
    DigitValueBound(f[..3]);
  }
}
