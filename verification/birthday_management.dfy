/** The birthday store's flat-file line format: one `<user> <month>/<day>`
    record per line, lines separated by '\n'. Reading and writing the file
    are abstracted away: loading takes the file's contents (`None` when the
    file does not open) and writing returns the text it would write. */
module BirthdayManagement {
  import opened Options

  const U64Bound: nat := 0x1_0000_0000_0000_0000
  const U8Bound: nat := 0x100

  type U64 = n: nat | n < 0x1_0000_0000_0000_0000
  type U8 = n: nat | n < 0x100

  /** A stored birthday. Month and day are any byte: nothing checks that
      they form a date. */
  datatype UserBirthday = UserBirthday(user: U64, month: U8, day: U8)

  // ---------------------------------------------------------------------
  // Splitting and joining on a separator
  // ---------------------------------------------------------------------

  /** The pieces of `s` between occurrences of `c`, as Rust's `str::split`
      yields them: at least one piece, empty pieces kept. */
  function Split(s: string, c: char): (parts: seq<string>)
    ensures |parts| >= 1
    ensures forall k :: 0 <= k < |parts| ==> c !in parts[k]
  {
    if |s| == 0 then [""]
    else
      var rest := Split(s[1..], c);
      if s[0] == c then [""] + rest
      else [[s[0]] + rest[0]] + rest[1..]
  }

  /** The pieces joined with `c` between neighbours; no pieces give "". */
  function Join(parts: seq<string>, c: char): string {
    if |parts| == 0 then ""
    else if |parts| == 1 then parts[0]
    else parts[0] + [c] + Join(parts[1..], c)
  }

  lemma {:induction false} SplitOfPiece(a: string, c: char)
    requires c !in a
    ensures Split(a, c) == [a]
  {
    if |a| > 0 {
      SplitOfPiece(a[1..], c);
      assert [a[0]] + a[1..] == a;
    }
  }

  lemma {:induction false} SplitAtSeparator(a: string, b: string, c: char)
    requires c !in a
    ensures Split(a + [c] + b, c) == [a] + Split(b, c)
  {
    if |a| == 0 {
      assert a + [c] + b == [c] + b;
      assert ([c] + b)[1..] == b;
    } else {
      var s := a + [c] + b;
      assert s[1..] == a[1..] + [c] + b;
      SplitAtSeparator(a[1..], b, c);
      assert [a[0]] + a[1..] == a;
    }
  }

  /** Splitting undoes joining when no piece holds the separator. */
  lemma {:induction false} SplitJoin(parts: seq<string>, c: char)
    requires |parts| >= 1
    requires forall k :: 0 <= k < |parts| ==> c !in parts[k]
    ensures Split(Join(parts, c), c) == parts
  {
    if |parts| == 1 {
      SplitOfPiece(parts[0], c);
    } else {
      SplitJoin(parts[1..], c);
      SplitAtSeparator(parts[0], Join(parts[1..], c), c);
      assert [parts[0]] + parts[1..] == parts;
    }
  }

  /** Joining the pieces gives the string back: splitting loses nothing. */
  lemma {:induction false} JoinSplit(s: string, c: char)
    ensures Join(Split(s, c), c) == s
  {
    if |s| > 0 {
      var rest := Split(s[1..], c);
      JoinSplit(s[1..], c);
      if s[0] == c {
        assert Split(s, c) == [""] + rest;
        assert ([""] + rest)[1..] == rest;
        assert s == [c] + s[1..];
      } else if |rest| == 1 {
        assert Split(s, c) == [[s[0]] + rest[0]];
        assert s == [s[0]] + s[1..];
      } else {
        var parts := [[s[0]] + rest[0]] + rest[1..];
        assert Split(s, c) == parts;
        assert parts[1..] == rest[1..];
        assert Join(rest, c) == rest[0] + [c] + Join(rest[1..], c);
        assert s == [s[0]] + s[1..];
      }
    }
  }

  /** A split gives two pieces or more exactly when the separator occurs. */
  lemma {:induction false} SplitHasSeparator(s: string, c: char)
    ensures |Split(s, c)| >= 2 <==> c in s
  {
    if |s| > 0 {
      SplitHasSeparator(s[1..], c);
      assert s == [s[0]] + s[1..];
    }
  }

  /** Joining grows at the end one piece at a time, as the writer builds it. */
  lemma {:induction false} JoinSnoc(parts: seq<string>, x: string, c: char)
    ensures Join(parts + [x], c) == if |parts| == 0 then x else Join(parts, c) + [c] + x
  {
    if |parts| > 1 {
      assert (parts + [x])[1..] == parts[1..] + [x];
      JoinSnoc(parts[1..], x, c);
    } else if |parts| == 1 {
      assert (parts + [x])[1..] == [x];
    }
  }

  // ---------------------------------------------------------------------
  // Decimal numerals
  // ---------------------------------------------------------------------

  predicate IsDigit(ch: char) { '0' <= ch <= '9' }

  predicate AllDigits(s: string) {
    |s| == 0 || (AllDigits(s[..|s| - 1]) && IsDigit(s[|s| - 1]))
  }

  function DigitsValue(s: string): nat
    requires AllDigits(s)
  {
    if |s| == 0 then 0
    else DigitsValue(s[..|s| - 1]) * 10 + (s[|s| - 1] as int - '0' as int)
  }

  /** Rust's `from_str` for an unsigned type whose values lie below
      `bound`: an optional '+', then one or more decimal digits (leading
      zeros allowed) whose value fits. */
  function ParseUnsigned(s: string, bound: nat): (r: Option<nat>)
    ensures r.Some? ==> r.value < bound
    ensures var digits := if |s| > 0 && s[0] == '+' then s[1..] else s;
      r.Some? ==> |digits| > 0 && AllDigits(digits) && r.value == DigitsValue(digits)
  {
    var digits := if |s| > 0 && s[0] == '+' then s[1..] else s;
    if |digits| == 0 || !AllDigits(digits) then None
    else if DigitsValue(digits) < bound then Some(DigitsValue(digits))
    else None
  }

  /** The decimal numeral of `n` as Rust's `Display` writes it. */
  function Decimal(n: nat): (s: string)
    ensures |s| >= 1 && AllDigits(s)
    ensures DigitsValue(s) == n
    ensures n < 10 <==> |s| == 1
    ensures |s| == 1 || s[0] != '0'
  {
    if n < 10 then
      var s := [('0' as int + n) as char];
      assert s[..0] == [] && AllDigits(s[..0]);
      s
    else
      var s := Decimal(n / 10) + [('0' as int + n % 10) as char];
      assert s[..|s| - 1] == Decimal(n / 10);
      s
  }

  lemma {:induction false} DigitsHead(s: string)
    requires |s| > 0 && AllDigits(s)
    ensures IsDigit(s[0])
  {
    if |s| > 1 {
      DigitsHead(s[..|s| - 1]);
    }
  }

  /** Every numeral the writer produces is read back as its value. */
  lemma DecimalParses(n: nat, bound: nat)
    requires n < bound
    ensures ParseUnsigned(Decimal(n), bound) == Some(n)
  {
    DigitsHead(Decimal(n));
  }

  predicate AllZeros(z: string) {
    forall k :: 0 <= k < |z| ==> z[k] == '0'
  }

  lemma {:induction false} ZerosValue(z: string)
    requires AllZeros(z)
    ensures AllDigits(z) && DigitsValue(z) == 0
  {
    if |z| > 0 {
      ZerosValue(z[..|z| - 1]);
    }
  }

  /** Leading zeros change neither the shape nor the value of a numeral. */
  lemma {:induction false} ZeroPadding(z: string, t: string)
    requires AllZeros(z) && AllDigits(t)
    ensures AllDigits(z + t) && DigitsValue(z + t) == DigitsValue(t)
  {
    if |t| == 0 {
      assert z + t == z;
      ZerosValue(z);
    } else {
      var u := z + t;
      assert u[..|u| - 1] == z + t[..|t| - 1];
      assert u[|u| - 1] == t[|t| - 1];
      ZeroPadding(z, t[..|t| - 1]);
    }
  }

  /** A numeral of value zero is all zeros. */
  lemma {:induction false} ZeroValueIsZeros(d: string)
    requires AllDigits(d) && DigitsValue(d) == 0
    ensures AllZeros(d)
  {
    if |d| > 0 {
      ZeroValueIsZeros(d[..|d| - 1]);
      assert d == d[..|d| - 1] + [d[|d| - 1]];
    }
  }

  /** Every non-empty digit string is zeros followed by the numeral of its
      value. */
  lemma {:induction false} DigitsArePaddedDecimal(d: string) returns (z: string)
    requires |d| > 0 && AllDigits(d)
    ensures AllZeros(z) && d == z + Decimal(DigitsValue(d))
  {
    var init, x := d[..|d| - 1], d[|d| - 1];
    assert d == init + [x];
    var v := x as int - '0' as int;
    if |init| == 0 || DigitsValue(init) == 0 {
      if |init| > 0 {
        ZeroValueIsZeros(init);
      }
      if x == '0' {
        z := init;
        assert Decimal(0) == ['0'];
      } else {
        z := init;
        assert Decimal(v) == [x];
      }
      assert AllZeros(z);
    } else {
      var w := DigitsValue(init);
      z := DigitsArePaddedDecimal(init);
      assert (w * 10 + v) / 10 == w && (w * 10 + v) % 10 == v;
      assert Decimal(w * 10 + v) == Decimal(w) + [x];
      assert d == z + Decimal(w) + [x];
    }
  }

  /** Every numeral the reader accepts: an optional '+', zeros, and the
      decimal numeral of the value. */
  lemma ParsedIsPaddedNumeral(s: string, bound: nat) returns (signed: bool, z: string)
    requires ParseUnsigned(s, bound).Some?
    ensures AllZeros(z)
    ensures s == (if signed then "+" else "") + z + Decimal(ParseUnsigned(s, bound).value)
  {
    signed := |s| > 0 && s[0] == '+';
    var digits := if signed then s[1..] else s;
    var v := ParseUnsigned(s, bound).value;
    assert |digits| > 0 && AllDigits(digits) && v == DigitsValue(digits);
    z := DigitsArePaddedDecimal(digits);
    assert digits == z + Decimal(v);
    if signed {
      assert s == "+" + digits;
    } else {
      assert s == "" + digits;
    }
  }

  /** Conversely, an optional '+', zeros and a numeral below the bound are
      read as the numeral's value. */
  lemma PaddedNumeralParses(signed: bool, z: string, n: nat, bound: nat)
    requires AllZeros(z) && n < bound
    ensures ParseUnsigned((if signed then "+" else "") + z + Decimal(n), bound) == Some(n)
  {
    var t := Decimal(n);
    ZeroPadding(z, t);
    var digits := z + t;
    DigitsHead(digits);
    var s := (if signed then "+" else "") + digits;
    assert s == (if signed then "+" else "") + z + t;
    assert |digits| > 0 && IsDigit(digits[0]) && DigitsValue(digits) == n;
    if signed {
      assert s[0] == '+' && s[1..] == digits;
    } else {
      assert s == digits && s[0] != '+';
    }
  }

  // ---------------------------------------------------------------------
  // Lines
  // ---------------------------------------------------------------------

  /** How one line reads: a record, a line skipped, or the panic of
      indexing a field that is not there. */
  datatype LineResult = Parsed(record: UserBirthday) | Skipped | Crashed

  /** One line. Its first space-separated field must be a u64, else the
      line is skipped; once it is, a second field and a '/' in it must be
      present, or the indexing panics; then month and day must each be a
      u8, else the line is skipped. Fields beyond those are ignored. */
  function ParseLine(line: string): (r: LineResult)
    ensures r.Parsed? ==> ParseUnsigned(Split(line, ' ')[0], U64Bound) == Some(r.record.user)
    ensures r.Crashed? ==> ParseUnsigned(Split(line, ' ')[0], U64Bound).Some?
  {
    var values := Split(line, ' ');
    match ParseUnsigned(values[0], U64Bound)
    case None => Skipped
    case Some(user) =>
      if |values| < 2 then Crashed
      else
        var dayValues := Split(values[1], '/');
        if |dayValues| < 2 then Crashed
        else
          match (ParseUnsigned(dayValues[0], U8Bound), ParseUnsigned(dayValues[1], U8Bound))
          case (Some(month), Some(day)) => Parsed(UserBirthday(user, month, day))
          case _ => Skipped
  }

  /** The line the writer produces for one record. */
  function FormatLine(b: UserBirthday): (line: string)
    ensures |line| > 0 && '\n' !in line
  {
    NoSeparatorIn(Decimal(b.user));
    NoSeparatorIn(Decimal(b.month));
    NoSeparatorIn(Decimal(b.day));
    Decimal(b.user) + " " + Decimal(b.month) + "/" + Decimal(b.day)
  }

  /** Once the id parses, a line panics exactly when it holds no ' ' or
      its second field holds no '/'. */
  lemma CrashIff(line: string)
    requires ParseUnsigned(Split(line, ' ')[0], U64Bound).Some?
    ensures ParseLine(line).Crashed? <==> (|Split(line, ' ')| < 2 || '/' !in Split(line, ' ')[1])
    ensures |Split(line, ' ')| < 2 <==> ' ' !in line
  {
    var values := Split(line, ' ');
    SplitHasSeparator(line, ' ');
    if |values| >= 2 {
      SplitHasSeparator(values[1], '/');
    }
  }

  lemma {:induction false} NoSeparatorIn(s: string)
    requires AllDigits(s)
    ensures ' ' !in s && '/' !in s && '\n' !in s
  {
    if |s| > 0 {
      NoSeparatorIn(s[..|s| - 1]);
      assert s == s[..|s| - 1] + [s[|s| - 1]];
    }
  }

  /** A line shaped `<id> <month>/<day>` is read field by field: a record
      when all three fields parse, whatever byte values month and day hold
      (nothing checks them against a calendar), and skipped otherwise. */
  lemma ParseDateLine(id: string, month: string, day: string)
    requires ' ' !in id && ' ' !in month && ' ' !in day
    requires '/' !in month && '/' !in day
    ensures ParseLine(id + " " + month + "/" + day) ==
      match (ParseUnsigned(id, U64Bound), ParseUnsigned(month, U8Bound), ParseUnsigned(day, U8Bound))
      case (Some(u), Some(m), Some(d)) => Parsed(UserBirthday(u, m, d))
      case _ => Skipped
  {
    var date := month + "/" + day;
    assert id + " " + month + "/" + day == id + [' '] + date;
    assert ' ' !in date;
    SplitAtSeparator(id, date, ' ');
    SplitOfPiece(date, ' ');
    assert Split(id + " " + month + "/" + day, ' ') == [id, date];
    assert date == month + ['/'] + day;
    SplitAtSeparator(month, day, '/');
    SplitOfPiece(day, '/');
    assert Split(date, '/') == [month, day];
  }

  /** A written line reads back as its record. */
  lemma FormatThenParseLine(b: UserBirthday)
    ensures ParseLine(FormatLine(b)) == Parsed(b)
  {
    NoSeparatorIn(Decimal(b.user));
    NoSeparatorIn(Decimal(b.month));
    NoSeparatorIn(Decimal(b.day));
    ParseDateLine(Decimal(b.user), Decimal(b.month), Decimal(b.day));
    DecimalParses(b.user, U64Bound);
    DecimalParses(b.month, U8Bound);
    DecimalParses(b.day, U8Bound);
  }

  lemma ExampleId()
    ensures ParseUnsigned("42", U64Bound) == Some(42)
  {
    assert "42"[..1] == "4" && "4"[..0] == "";
  }

  lemma ExampleSignedAndPadded()
    ensures ParseUnsigned("+13", U8Bound) == Some(13)
    ensures ParseUnsigned("007", U8Bound) == Some(7)
  {
    assert "+13"[1..] == "13" && "13"[..1] == "1" && "1"[..0] == "";
    assert "007"[..2] == "00" && "00"[..1] == "0" && "0"[..0] == "";
  }

  lemma ExampleOverByte()
    ensures ParseUnsigned("256", U8Bound) == None
    ensures ParseUnsigned("1", U8Bound) == Some(1)
  {
    assert "256"[..2] == "25" && "25"[..1] == "2" && "2"[..0] == "";
  }

  /** A '+' sign and leading zeros are accepted. */
  lemma LenientNumeralsExample()
    ensures ParseLine("42 +13/007") == Parsed(UserBirthday(42, 13, 7))
  {
    ExampleId();
    ExampleSignedAndPadded();
    ParseDateLine("42", "+13", "007");
    assert "42" + " " + "+13" + "/" + "007" == "42 +13/007";
  }

  /** A month or day over a byte skips the line. */
  lemma ByteOverflowExample()
    ensures ParseLine("42 256/1") == Skipped
  {
    ExampleId();
    ExampleOverByte();
    ParseDateLine("42", "256", "1");
    assert "42" + " " + "256" + "/" + "1" == "42 256/1";
  }

  /** An empty line is skipped; a line whose id parses but that lacks a
      date, or a '/' in it, panics. */
  lemma MissingFieldsExample()
    ensures ParseLine("") == Skipped
    ensures ParseLine("42") == Crashed
    ensures ParseLine("42 5") == Crashed
  {
    ExampleId();
    SplitOfPiece("42", ' ');
    assert Split("42 5", ' ') == ["42", "5"] by {
      SplitAtSeparator("42", "5", ' ');
      SplitOfPiece("5", ' ');
      assert "42" + [' '] + "5" == "42 5";
    }
    SplitOfPiece("5", '/');
  }

  // ---------------------------------------------------------------------
  // Files
  // ---------------------------------------------------------------------

  /** What loading yields: the records, or the panic on the given line. */
  datatype Loaded = Records(birthdays: seq<UserBirthday>) | Panic(line: nat)

  /** One step of the loop over the lines: line `i` read as `r` after the
      lines before it loaded as `acc`. A parsed line's record is pushed, a
      skipped line is passed over, and a crash ends it all. */
  function Push(acc: Loaded, r: LineResult, i: nat): Loaded {
    match acc
    case Panic(k) => Panic(k)
    case Records(bs) =>
      match r
      case Parsed(b) => Records(bs + [b])
      case Skipped => Records(bs)
      case Crashed => Panic(i)
  }

  /** The loop over the lines, one line at a time. */
  function ParseLines(lines: seq<string>): (r: Loaded)
    ensures r.Panic? ==> r.line < |lines| && ParseLine(lines[r.line]).Crashed?
  {
    if |lines| == 0 then Records([])
    else Push(ParseLines(lines[..|lines| - 1]), ParseLine(lines[|lines| - 1]), |lines| - 1)
  }

  /** The contents of the file: a file that does not open holds no records. */
  function ParseFile(file: Option<string>): (r: Loaded)
    ensures r.Panic? ==>
      file.Some? && r.line < |Split(file.value, '\n')| && ParseLine(Split(file.value, '\n')[r.line]).Crashed?
  {
    match file
    case None => Records([])
    case Some(text) => ParseLines(Split(text, '\n'))
  }

  /** The records of the lines that parse, in the order of the lines. */
  function Accepted(lines: seq<string>): seq<UserBirthday> {
    if |lines| == 0 then []
    else
      (match ParseLine(lines[0]) case Parsed(b) => [b] case _ => []) + Accepted(lines[1..])
  }

  lemma {:induction false} AcceptedAppend(a: seq<string>, b: seq<string>)
    ensures Accepted(a + b) == Accepted(a) + Accepted(b)
  {
    if |a| > 0 {
      assert (a + b)[1..] == a[1..] + b;
      AcceptedAppend(a[1..], b);
    } else {
      assert a + b == b;
    }
  }

  /** A skipped line changes nothing: loading goes on with the next line. */
  lemma SkippedLineIsDropped(a: seq<string>, line: string, b: seq<string>)
    requires ParseLine(line) == Skipped
    ensures Accepted(a + [line] + b) == Accepted(a + b)
  {
    AcceptedAppend(a + [line], b);
    AcceptedAppend(a, [line]);
    AcceptedAppend(a, b);
    assert Accepted([line]) == [] by {
      assert [line][1..] == [];
    }
  }

  /** Loading lines none of which crashes yields exactly the records of the
      lines that parse, in the order of the lines. */
  lemma {:induction false} ParseLinesKeepsOrder(lines: seq<string>)
    requires forall k :: 0 <= k < |lines| ==> ParseLine(lines[k]) != Crashed
    ensures ParseLines(lines) == Records(Accepted(lines))
  {
    if |lines| > 0 {
      var init := lines[..|lines| - 1];
      var last := lines[|lines| - 1];
      forall k | 0 <= k < |init| ensures ParseLine(init[k]) != Crashed {
        assert init[k] == lines[k];
      }
      ParseLinesKeepsOrder(init);
      assert init + [last] == lines;
      AcceptedAppend(init, [last]);
      assert [last][1..] == [];
      var r := ParseLine(last);
      assert r != Crashed;
      assert Accepted([last]) == if r.Parsed? then [r.record] else [];
      assert ParseLines(lines) == Push(Records(Accepted(init)), r, |lines| - 1);
    }
  }

  /** A load that panics names the first line that crashes. */
  lemma {:induction false} PanicNamesFirstCrash(lines: seq<string>)
    requires ParseLines(lines).Panic?
    ensures ParseLines(lines).line < |lines|
    ensures ParseLine(lines[ParseLines(lines).line]) == Crashed
    ensures forall j :: 0 <= j < ParseLines(lines).line ==> ParseLine(lines[j]) != Crashed
  {
    var init := lines[..|lines| - 1];
    assert forall k :: 0 <= k < |init| ==> init[k] == lines[k];
    if ParseLines(init).Panic? {
      PanicNamesFirstCrash(init);
    } else {
      ParseLinesNoCrash(init);
    }
  }

  lemma {:induction false} ParseLinesNoCrash(lines: seq<string>)
    requires ParseLines(lines).Records?
    ensures forall k :: 0 <= k < |lines| ==> ParseLine(lines[k]) != Crashed
  {
    if |lines| > 0 {
      var init := lines[..|lines| - 1];
      var last := lines[|lines| - 1];
      assert ParseLines(init).Records? && ParseLine(last) != Crashed;
      ParseLinesNoCrash(init);
      forall k | 0 <= k < |lines| ensures ParseLine(lines[k]) != Crashed {
        if k < |init| {
          assert lines[k] == init[k];
        }
      }
    }
  }

  /** Once a line crashes, further lines change nothing. */
  lemma {:induction false} PanicPersists(lines: seq<string>, i: nat, j: nat)
    requires i < j <= |lines|
    requires ParseLines(lines[..i + 1]) == Panic(i)
    ensures ParseLines(lines[..j]) == Panic(i)
  {
    if j > i + 1 {
      PanicPersists(lines, i, j - 1);
      assert lines[..j][..j - 1] == lines[..j - 1];
    }
  }

  /** The text the writer produces for a list of records. */
  function Serialize(birthdays: seq<UserBirthday>): (text: string)
    ensures birthdays == [] <==> text == ""
    ensures text != "" ==> text[0] != '\n' && text[|text| - 1] != '\n'
  {
    SerializeShape(birthdays);
    Join(FormatLines(birthdays), '\n')
  }

  function FormatLines(birthdays: seq<UserBirthday>): seq<string> {
    seq(|birthdays|, k requires 0 <= k < |birthdays| => FormatLine(birthdays[k]))
  }

  lemma {:induction false} SerializeShape(birthdays: seq<UserBirthday>)
    ensures var text := Join(FormatLines(birthdays), '\n');
      (birthdays == [] <==> text == "") &&
      (text != "" ==> text[0] != '\n' && text[|text| - 1] != '\n')
  {
    var lines := FormatLines(birthdays);
    if |birthdays| == 1 {
      assert Join(lines, '\n') == FormatLine(birthdays[0]);
    } else if |birthdays| > 1 {
      var rest := birthdays[1..];
      assert FormatLines(rest) == lines[1..];
      SerializeShape(rest);
      var first := FormatLine(birthdays[0]);
      var text := first + ['\n'] + Join(FormatLines(rest), '\n');
      assert Join(lines, '\n') == text;
      assert text[0] == first[0];
      assert text[|text| - 1] == Join(FormatLines(rest), '\n')[|Join(FormatLines(rest), '\n')| - 1];
    }
  }

  /** Writing then loading gives back the records written. */
  lemma SerializeThenLoad(birthdays: seq<UserBirthday>)
    ensures ParseFile(Some(Serialize(birthdays))) == Records(birthdays)
  {
    var lines := FormatLines(birthdays);
    if |birthdays| == 0 {
      assert Split("", '\n') == [""];
      assert ParseLine("") == Skipped;
    } else {
      forall k | 0 <= k < |lines| ensures '\n' !in lines[k] {
        assert lines[k] == FormatLine(birthdays[k]);
      }
      SplitJoin(lines, '\n');
      forall k | 0 <= k < |lines| ensures ParseLine(lines[k]) == Parsed(birthdays[k]) {
        FormatThenParseLine(birthdays[k]);
      }
      ParseLinesKeepsOrder(lines);
      AcceptedOfFormatted(birthdays);
    }
  }

  lemma {:induction false} AcceptedOfFormatted(birthdays: seq<UserBirthday>)
    ensures Accepted(FormatLines(birthdays)) == birthdays
  {
    if |birthdays| > 0 {
      var lines := FormatLines(birthdays);
      assert lines[1..] == FormatLines(birthdays[1..]);
      FormatThenParseLine(birthdays[0]);
      AcceptedOfFormatted(birthdays[1..]);
      assert [birthdays[0]] + birthdays[1..] == birthdays;
    }
  }

  /** The loading loop over the file's lines. */
  method LoadUserFile(file: Option<string>) returns (r: Loaded)
    ensures r == ParseFile(file)
    ensures file.None? ==> r == Records([])
  {
    if file.None? {
      return Records([]);
    }
    var lines := Split(file.value, '\n');
    var toReturn: seq<UserBirthday> := [];
    var i := 0;
    while i < |lines|
      invariant 0 <= i <= |lines|
      invariant ParseLines(lines[..i]) == Records(toReturn)
    {
      assert lines[..i + 1][..i] == lines[..i];
      var values := Split(lines[i], ' ');
      var userNum := ParseUnsigned(values[0], U64Bound);
      if userNum.None? {
        i := i + 1;
        continue;
      }
      if |values| < 2 {
        PanicPersists(lines, i, |lines|);
        assert lines[..|lines|] == lines;
        return Panic(i);
      }
      var dayValues := Split(values[1], '/');
      if |dayValues| < 2 {
        PanicPersists(lines, i, |lines|);
        assert lines[..|lines|] == lines;
        return Panic(i);
      }
      var monthNum := ParseUnsigned(dayValues[0], U8Bound);
      var dayNum := ParseUnsigned(dayValues[1], U8Bound);
      if monthNum.None? {
        i := i + 1;
        continue;
      }
      if dayNum.None? {
        i := i + 1;
        continue;
      }
      toReturn := toReturn + [UserBirthday(userNum.value, monthNum.value, dayNum.value)];
      i := i + 1;
    }
    assert lines[..i] == lines;
    r := Records(toReturn);
  }

  lemma FormatLinesSnoc(birthdays: seq<UserBirthday>, k: nat)
    requires k < |birthdays|
    ensures FormatLines(birthdays[..k + 1]) == FormatLines(birthdays[..k]) + [FormatLine(birthdays[k])]
  {
  }

  /** The writing loop: a '\n' before every record but the first. */
  method WriteUserFile(birthdays: seq<UserBirthday>) returns (buf: string)
    ensures buf == Serialize(birthdays)
  {
    buf := "";
    var firstLine := true;
    for k := 0 to |birthdays|
      invariant firstLine <==> k == 0
      invariant buf == Join(FormatLines(birthdays[..k]), '\n')
    {
      var b := birthdays[k];
      ghost var before := buf;
      if firstLine {
        firstLine := false;
      } else {
        buf := buf + "\n";
      }
      ghost var separated := buf;
      buf := buf + Decimal(b.user);
      buf := buf + " ";
      buf := buf + Decimal(b.month);
      buf := buf + "/";
      buf := buf + Decimal(b.day);
      assert buf == separated + FormatLine(b);
      FormatLinesSnoc(birthdays, k);
      JoinSnoc(FormatLines(birthdays[..k]), FormatLine(b), '\n');
    }
    assert birthdays[..|birthdays|] == birthdays;
  }
}
