/** The decimal reports of kernel/my_sys.c (Proyecto) and the sscanf() formats with which the API backend
    (api_syscalls.c) reads them: printing and scanning undo each other. */
module Reports {
  const U64 := 0x1_0000_0000_0000_0000
  const BUFFER := 128

  type Text = seq<char>

  predicate Digit(c: char) { '0' <= c <= '9' }
  predicate White(c: char) { c == ' ' || c == '\n' || c == '\t' || c == '\r' || c == '\U{0B}' || c == '\U{0C}' }

  function DigitChar(d: nat): char requires d < 10 { '0' + d as char }
  function DigitValue(c: char): nat requires Digit(c) { (c - '0') as nat }

  // ---------------------------------------------------------------- numbers

  /** %lu */
  function Decimal(n: nat): (s: Text)
    ensures |s| > 0 && (|s| > 1 ==> s[0] != '0') && forall c <- s :: Digit(c)
    ensures n > 0 ==> s[0] != '0'
  {
    if n < 10 then [DigitChar(n)] else Decimal(n / 10) + [DigitChar(n % 10)]
  }

  /** Length of the leading run of digits. */
  function DigitRun(s: Text): (k: nat)
    ensures k <= |s| && (forall i | 0 <= i < k :: Digit(s[i])) && (k < |s| ==> !Digit(s[k]))
  {
    if s == [] || !Digit(s[0]) then 0 else 1 + DigitRun(s[1..])
  }

  function Value(digits: Text): nat
    requires forall c <- digits :: Digit(c)
  {
    if digits == [] then 0 else 10 * Value(digits[..|digits| - 1]) + DigitValue(digits[|digits| - 1])
  }

  /** strtoul() saturates. */
  function Saturate(n: nat): nat { if n < U64 then n else U64 - 1 }

  lemma {:induction false} ValueOfDecimal(n: nat)
    ensures Value(Decimal(n)) == n
  {
    if n >= 10 {
      ValueOfDecimal(n / 10);
      assert Decimal(n)[..|Decimal(n)| - 1] == Decimal(n / 10);
    }
  }

  function Pow10(k: nat): nat { if k == 0 then 1 else 10 * Pow10(k - 1) }

  lemma {:induction false} DecimalLength(n: nat, k: nat)
    requires k > 0 && n < Pow10(k)
    ensures |Decimal(n)| <= k
  {
    if n >= 10 {
      assert k > 1 by { assert Pow10(1) == 10 * Pow10(0); }
      DecimalLength(n / 10, k - 1);
    }
  }

  /** A 64-bit number has at most 20 digits. */
  lemma WordLength(n: nat)
    requires n < U64
    ensures |Decimal(n)| <= 20
  {
    assert Pow10(5) == 100_000;
    assert Pow10(10) == 100_000 * Pow10(5);
    assert Pow10(15) == 100_000 * Pow10(10);
    assert Pow10(20) == 100_000 * Pow10(15);
    DecimalLength(n, 20);
  }

  // ---------------------------------------------------------------- formats

  /** A format string, cut at its %lu conversions. */
  datatype Piece = Lit(text: Text) | Number

  type Format = seq<Piece>

  /** How many numbers a format converts. */
  function Numbers(format: Format): nat {
    if format == [] then 0 else (if format[0].Number? then 1 else 0) + Numbers(format[1..])
  }

  function Print(format: Format, args: seq<nat>): Text
    requires |args| == Numbers(format)
  {
    if format == [] then []
    else if format[0].Number? then Decimal(args[0]) + Print(format[1..], args[1..])
    else format[0].text + Print(format[1..], args)
  }

  function SkipWhite(s: Text): Text { if s != [] && White(s[0]) then SkipWhite(s[1..]) else s }

  datatype Match = Mismatch | Rest(input: Text)

  /** Literal text of a format against the input: a blank matches any run of blanks, also an empty one,
      any other character matches itself. */
  function MatchText(text: Text, input: Text): Match
    decreases |text|
  {
    if text == [] then Rest(input)
    else if White(text[0]) then MatchText(text[1..], SkipWhite(input))
    else if input != [] && input[0] == text[0] then MatchText(text[1..], input[1..])
    else Mismatch
  }

  /** sscanf(): the numbers converted before the first mismatch. %lu skips leading blanks. */
  function Scan(format: Format, input: Text): seq<nat>
    decreases |format|
  {
    if format == [] then []
    else if format[0].Number? then
      var s := SkipWhite(input);
      var k := DigitRun(s);
      if k == 0 then [] else [Saturate(Value(s[..k]))] + Scan(format[1..], s[k..])
    else
      match MatchText(format[0].text, input)
      case Mismatch => []
      case Rest(rest) => Scan(format[1..], rest)
  }

  /** Every number is followed by literal text that does not start with a digit. */
  predicate Separated(format: Format) {
    forall i | 0 <= i < |format| && format[i].Number? ::
      i + 1 < |format| && format[i + 1].Lit? && format[i + 1].text != [] && !Digit(format[i + 1].text[0])
  }

  lemma {:induction false} DigitRunOf(digits: Text, rest: Text)
    requires (forall c <- digits :: Digit(c)) && (rest != [] ==> !Digit(rest[0]))
    ensures DigitRun(digits + rest) == |digits|
  {
    if digits == [] {
      assert digits + rest == rest;
    } else {
      assert digits[0] in digits;
      assert (digits + rest)[1..] == digits[1..] + rest;
      DigitRunOf(digits[1..], rest);
    }
  }

  lemma {:induction false} SkipWhiteTwice(s: Text)
    ensures SkipWhite(SkipWhite(s)) == SkipWhite(s)
  {
    if s != [] && White(s[0]) { SkipWhiteTwice(s[1..]); }
  }

  /** Literal text matches itself, with or without the leading blanks of the input; what is left may have
      lost its own leading blanks. */
  lemma {:induction false} TextMatchesItself(text: Text, rest: Text)
    ensures MatchText(text, text + rest) == Rest(rest) || MatchText(text, text + rest) == Rest(SkipWhite(rest))
    ensures text == [] ==> MatchText(text, SkipWhite(text + rest)) == Rest(SkipWhite(rest))
    ensures text != [] ==> MatchText(text, SkipWhite(text + rest)) == MatchText(text, text + rest)
    decreases |text|
  {
    if text == [] {
      assert text + rest == rest;
    } else {
      assert (text + rest)[1..] == text[1..] + rest;
      TextMatchesItself(text[1..], rest);
      if White(text[0]) { SkipWhiteTwice(text[1..] + rest); }
    }
  }

  /** Scanning what was printed, with anything after it and with or without its leading blanks, gives the
      numbers back. */
  lemma {:induction false} ScanUndoesPrint(format: Format, args: seq<nat>, tail: Text)
    requires Separated(format) && |args| == Numbers(format) && forall n <- args :: n < U64
    ensures Scan(format, Print(format, args) + tail) == args
    ensures Scan(format, SkipWhite(Print(format, args) + tail)) == args
    decreases |format|
  {
    var printed := Print(format, args) + tail;
    if format != [] {
      assert Separated(format[1..]) by { assert forall i | 0 <= i < |format[1..]| :: format[1..][i] == format[i + 1]; }
      if format[0].Number? {
        var digits, rest := Decimal(args[0]), Print(format[1..], args[1..]) + tail;
        assert printed == digits + rest;
        assert digits[0] in digits && args[0] in args && forall n <- args[1..] :: n in args;
        assert SkipWhite(printed) == printed;
        assert rest[0] == format[1].text[0];
        DigitRunOf(digits, rest);
        ValueOfDecimal(args[0]);
        assert printed[..|digits|] == digits && printed[|digits|..] == rest;
        ScanUndoesPrint(format[1..], args[1..], tail);
      } else {
        var rest := Print(format[1..], args) + tail;
        assert printed == format[0].text + rest;
        TextMatchesItself(format[0].text, rest);
        ScanUndoesPrint(format[1..], args, tail);
      }
    }
  }

  // ---------------------------------------------------------------- the three reports

  function Two(a: Text, b: Text, c: Text): Format { [Lit(a), Number, Lit(b), Number, Lit(c)] }
  function Three(a: Text, b: Text, c: Text, d: Text): Format {
    [Lit(a), Number, Lit(b), Number, Lit(c), Number, Lit(d)]
  }

  const SWAP_TOTAL: Text := "\"swap_info\": {\n  \"total\": "
  const SWAP_USED: Text := ",\n  \"used\": "
  const SWAP_FREE: Text := ",\n  \"free\": "
  const MINOR_FAULTS: Text := "\"page_faults_info\": {\n  \"minor_faults\": "
  const MAJOR_FAULTS: Text := ",\n  \"major_faults\": "
  const ACTIVE_PAGES: Text := "\"memory_pages_info\": {\n  \"active\": "
  const INACTIVE_PAGES: Text := ",\n  \"inactive\": "
  const CLOSE: Text := "\n}"

  const SWAP_SCAN: Format := Three(SWAP_TOTAL, SWAP_USED, SWAP_FREE, CLOSE)
  const FAULTS_SCAN: Format := Two(MINOR_FAULTS, MAJOR_FAULTS, CLOSE)
  const PAGES_SCAN: Format := Two(ACTIVE_PAGES, INACTIVE_PAGES, CLOSE)

  predicate Separates(t: Text) { t != [] && !Digit(t[0]) }

  function LiteralLength(format: Format): nat {
    if format == [] then 0 else (if format[0].Lit? then |format[0].text| else 0) + LiteralLength(format[1..])
  }

  /** One literal and one number in front of a format. */
  lemma FieldShape(t: Text, f: Format)
    ensures Numbers([Lit(t), Number] + f) == 1 + Numbers(f)
    ensures LiteralLength([Lit(t), Number] + f) == |t| + LiteralLength(f)
    ensures Separated(f) && f != [] && f[0].Lit? && Separates(f[0].text) ==> Separated([Lit(t), Number] + f)
  {
    var g := [Number] + f;
    assert ([Lit(t)] + g)[1..] == g && g[1..] == f;
    assert [Lit(t), Number] + f == [Lit(t)] + g;
  }

  lemma TwoShape(a: Text, b: Text, c: Text)
    ensures Numbers(Two(a, b, c)) == 2 && LiteralLength(Two(a, b, c)) == |a| + |b| + |c|
    ensures Separates(b) && Separates(c) ==> Separated(Two(a, b, c))
  {
    var last := [Lit(c)];
    assert last[1..] == [];
    var two := [Lit(b), Number] + last;
    FieldShape(b, last);
    FieldShape(a, two);
    assert Two(a, b, c) == [Lit(a), Number] + two;
  }

  lemma ThreeShape(a: Text, b: Text, c: Text, d: Text)
    ensures Numbers(Three(a, b, c, d)) == 3 && LiteralLength(Three(a, b, c, d)) == |a| + |b| + |c| + |d|
    ensures Separates(b) && Separates(c) && Separates(d) ==> Separated(Three(a, b, c, d))
  {
    TwoShape(b, c, d);
    FieldShape(a, Two(b, c, d));
    assert Three(a, b, c, d) == [Lit(a), Number] + Two(b, c, d);
  }

  /** The kernel prints what the API scans, and a final newline. */
  function Printed(scan: Format, args: seq<nat>): Text
    requires |args| == Numbers(scan)
  {
    Print(scan, args) + "\n"
  }

  ghost predicate Words(args: seq<nat>) { forall n <- args :: n < U64 }

  lemma {:induction false} PrintLength(format: Format, args: seq<nat>)
    requires |args| == Numbers(format) && Words(args)
    ensures |Print(format, args)| <= LiteralLength(format) + 20 * |args|
  {
    if format != [] {
      if format[0].Number? {
        assert args[0] in args && forall n <- args[1..] :: n in args;
        WordLength(args[0]);
        PrintLength(format[1..], args[1..]);
      } else {
        PrintLength(format[1..], args);
      }
    }
  }

  lemma PrintField(t: Text, n: nat, f: Format, args: seq<nat>)
    requires |args| == Numbers(f)
    ensures |[n] + args| == Numbers([Lit(t), Number] + f)
    ensures Print([Lit(t), Number] + f, [n] + args) == t + Decimal(n) + Print(f, args)
  {
    FieldShape(t, f);
    var g := [Number] + f;
    assert [Lit(t), Number] + f == [Lit(t)] + g && ([Lit(t)] + g)[1..] == g && g[1..] == f;
    assert ([n] + args)[1..] == args;
  }

  lemma PrintTwo(a: Text, b: Text, c: Text, x: nat, y: nat)
    ensures Numbers(Two(a, b, c)) == 2
    ensures Print(Two(a, b, c), [x, y]) == a + Decimal(x) + (b + Decimal(y) + c)
  {
    var last := [Lit(c)];
    assert last[1..] == [];
    assert Print(last, []) == c + [];
    PrintField(b, y, last, []);
    var two := [Lit(b), Number] + last;
    assert [y] + [] == [y] && [x] + [y] == [x, y];
    PrintField(a, x, two, [y]);
    assert Two(a, b, c) == [Lit(a), Number] + two;
  }

  lemma PrintThree(a: Text, b: Text, c: Text, d: Text, x: nat, y: nat, z: nat)
    ensures Numbers(Three(a, b, c, d)) == 3
    ensures Print(Three(a, b, c, d), [x, y, z]) == a + Decimal(x) + (b + Decimal(y) + (c + Decimal(z) + d))
  {
    PrintTwo(b, c, d, y, z);
    PrintField(a, x, Two(b, c, d), [y, z]);
    assert [x] + [y, z] == [x, y, z];
    assert Three(a, b, c, d) == [Lit(a), Number] + Two(b, c, d);
  }

  /** The three reports, letter by letter. */
  lemma ReportTexts(x: nat, y: nat, z: nat)
    ensures Numbers(SWAP_SCAN) == 3 && Numbers(FAULTS_SCAN) == 2 && Numbers(PAGES_SCAN) == 2
    ensures Printed(SWAP_SCAN, [x, y, z])
         == "\"swap_info\": {\n  \"total\": " + Decimal(x)
            + (",\n  \"used\": " + Decimal(y) + (",\n  \"free\": " + Decimal(z) + "\n}")) + "\n"
    ensures Printed(FAULTS_SCAN, [x, y])
         == "\"page_faults_info\": {\n  \"minor_faults\": " + Decimal(x)
            + (",\n  \"major_faults\": " + Decimal(y) + "\n}") + "\n"
    ensures Printed(PAGES_SCAN, [x, y])
         == "\"memory_pages_info\": {\n  \"active\": " + Decimal(x)
            + (",\n  \"inactive\": " + Decimal(y) + "\n}") + "\n"
  {
    PrintThree(SWAP_TOTAL, SWAP_USED, SWAP_FREE, CLOSE, x, y, z);
    PrintTwo(MINOR_FAULTS, MAJOR_FAULTS, CLOSE, x, y);
    PrintTwo(ACTIVE_PAGES, INACTIVE_PAGES, CLOSE, x, y);
  }

  /** snprintf() into the report buffer, and the user's copy of it as a C string. */
  function Received(text: Text): Text { if |text| < BUFFER then text else text[..BUFFER - 1] }

  lemma ReportRoundTrip(scan: Format, args: seq<nat>, garbage: Text)
    requires Separated(scan) && |args| == Numbers(scan) && Words(args)
    requires LiteralLength(scan) + 20 * |args| + 1 < BUFFER
    ensures Received(Printed(scan, args)) == Printed(scan, args)
    ensures Scan(scan, Received(Printed(scan, args)) + garbage) == args
  {
    PrintLength(scan, args);
    ScanUndoesPrint(scan, args, "\n" + garbage);
    assert Printed(scan, args) + garbage == Print(scan, args) + ("\n" + garbage);
  }

  /** For every tuple of 64-bit values each of the three reports fits its 128-byte buffer, and scanning it
      with the format of the API returns exactly the printed numbers. */
  lemma SwapReportRoundTrip(total: nat, used: nat, free: nat, garbage: Text)
    requires total < U64 && used < U64 && free < U64
    ensures Numbers(SWAP_SCAN) == 3 && |Printed(SWAP_SCAN, [total, used, free])| < BUFFER
    ensures Scan(SWAP_SCAN, Received(Printed(SWAP_SCAN, [total, used, free])) + garbage) == [total, used, free]
  {
    ThreeShape(SWAP_TOTAL, SWAP_USED, SWAP_FREE, CLOSE);
    PrintLength(SWAP_SCAN, [total, used, free]);
    ReportRoundTrip(SWAP_SCAN, [total, used, free], garbage);
  }

  lemma FaultsReportRoundTrip(minor: nat, major: nat, garbage: Text)
    requires minor < U64 && major < U64
    ensures Numbers(FAULTS_SCAN) == 2 && |Printed(FAULTS_SCAN, [minor, major])| < BUFFER
    ensures Scan(FAULTS_SCAN, Received(Printed(FAULTS_SCAN, [minor, major])) + garbage) == [minor, major]
  {
    TwoShape(MINOR_FAULTS, MAJOR_FAULTS, CLOSE);
    PrintLength(FAULTS_SCAN, [minor, major]);
    ReportRoundTrip(FAULTS_SCAN, [minor, major], garbage);
  }

  lemma PagesReportRoundTrip(active: nat, inactive: nat, garbage: Text)
    requires active < U64 && inactive < U64
    ensures Numbers(PAGES_SCAN) == 2 && |Printed(PAGES_SCAN, [active, inactive])| < BUFFER
    ensures Scan(PAGES_SCAN, Received(Printed(PAGES_SCAN, [active, inactive])) + garbage) == [active, inactive]
  {
    TwoShape(ACTIVE_PAGES, INACTIVE_PAGES, CLOSE);
    PrintLength(PAGES_SCAN, [active, inactive]);
    ReportRoundTrip(PAGES_SCAN, [active, inactive], garbage);
  }

  // ---------------------------------------------------------------- the report buffer

  ghost predicate Plain(t: Text) { '\0' !in t }

  lemma PlainSwapTexts()
    ensures Plain(SWAP_TOTAL) && Plain(SWAP_USED) && Plain(SWAP_FREE) && Plain(CLOSE)
  {
  }

  lemma PlainFaultsTexts()
    ensures Plain(MINOR_FAULTS) && Plain(MAJOR_FAULTS)
  {
  }

  lemma PlainPagesTexts()
    ensures Plain(ACTIVE_PAGES) && Plain(INACTIVE_PAGES)
  {
  }

  lemma PlainTexts()
    ensures Plain(SWAP_TOTAL) && Plain(SWAP_USED) && Plain(SWAP_FREE) && Plain(CLOSE)
    ensures Plain(MINOR_FAULTS) && Plain(MAJOR_FAULTS) && Plain(ACTIVE_PAGES) && Plain(INACTIVE_PAGES)
  {
    PlainSwapTexts();
    PlainFaultsTexts();
    PlainPagesTexts();
  }

  /** The text up to the first terminator. */
  function Before(s: Text, end: char): (r: Text)
    ensures r <= s && end !in r && (|r| < |s| ==> s[|r|] == end)
  {
    if s == [] || s[0] == end then [] else [s[0]] + Before(s[1..], end)
  }

  lemma {:induction false} PrintHasNoTerminator(format: Format, args: seq<nat>)
    requires |args| == Numbers(format) && forall p <- format :: p.Lit? ==> '\0' !in p.text
    ensures '\0' !in Print(format, args)
  {
    if format != [] {
      assert format[0] in format && forall p <- format[1..] :: p in format;
      PrintHasNoTerminator(format[1..], if format[0].Number? then args[1..] else args);
    }
  }

  method Snprintf(format: Format, args: seq<nat>) returns (buffer: array<char>)
    requires |args| == Numbers(format) && forall p <- format :: p.Lit? ==> '\0' !in p.text
    ensures fresh(buffer) && buffer.Length == BUFFER && Before(buffer[..], '\0') == Received(Printed(format, args))
  {
    var text := Printed(format, args);
    var n := if |text| < BUFFER then |text| else BUFFER - 1;
    buffer := new char[BUFFER];
    forall i | 0 <= i < n { buffer[i] := text[i]; }
    buffer[n] := '\0';
    PrintHasNoTerminator(format, args);
    var before := Before(buffer[..], '\0');
    assert forall i | 0 <= i < n :: buffer[..][i] == text[i] != '\0';
    assert |before| == n;
  }

  // ---------------------------------------------------------------- what the numbers are

  /** Subtraction, addition and left shift of 64-bit words. */
  function Minus(a: nat, b: nat): nat requires a < U64 && b < U64 { (a - b) % U64 }
  function Plus(a: nat, b: nat): nat { (a + b) % U64 }
  function Kilobytes(pages: nat): nat { pages * 4 % U64 }

  /** get_swap_info(): the report of a machine with the given numbers of pages (4 KiB each). */
  method GetSwapInfo(totalswap: nat, freeswap: nat) returns (buffer: array<char>)
    requires totalswap < U64 && freeswap < U64
    ensures fresh(buffer) && buffer.Length == BUFFER && Numbers(SWAP_SCAN) == 3
    ensures Before(buffer[..], '\0')
         == Printed(SWAP_SCAN, [Kilobytes(totalswap), Kilobytes(Minus(totalswap, freeswap)), Kilobytes(freeswap)])
  {
    var swapUsed := (totalswap - freeswap) % U64;
    var args := [totalswap * 4 % U64, swapUsed * 4 % U64, freeswap * 4 % U64];
    ThreeShape(SWAP_TOTAL, SWAP_USED, SWAP_FREE, CLOSE);
    PlainTexts();
    buffer := Snprintf(SWAP_SCAN, args);
    SwapReportRoundTrip(args[0], args[1], args[2], "");
  }

  /** get_page_faults_info(): what it calls minor faults are the file pages less the free pages, and major
      faults the mapped file pages, as 64-bit words. */
  method GetPageFaultsInfo(filePages: nat, freePages: nat, fileMapped: nat) returns (buffer: array<char>)
    requires filePages < U64 && freePages < U64 && fileMapped < U64
    ensures fresh(buffer) && buffer.Length == BUFFER && Numbers(FAULTS_SCAN) == 2
    ensures Before(buffer[..], '\0') == Printed(FAULTS_SCAN, [Minus(filePages, freePages), fileMapped])
  {
    var minorFaults, majorFaults := (filePages - freePages) % U64, fileMapped;
    TwoShape(MINOR_FAULTS, MAJOR_FAULTS, CLOSE);
    PlainTexts();
    buffer := Snprintf(FAULTS_SCAN, [minorFaults, majorFaults]);
    FaultsReportRoundTrip(minorFaults, majorFaults, "");
  }

  /** get_memory_pages_info(): anonymous and file pages together, as 64-bit words. */
  method GetMemoryPagesInfo(activeAnon: nat, activeFile: nat, inactiveAnon: nat, inactiveFile: nat)
    returns (buffer: array<char>)
    requires activeAnon < U64 && activeFile < U64 && inactiveAnon < U64 && inactiveFile < U64
    ensures fresh(buffer) && buffer.Length == BUFFER && Numbers(PAGES_SCAN) == 2
    ensures Before(buffer[..], '\0')
         == Printed(PAGES_SCAN, [Plus(activeAnon, activeFile), Plus(inactiveAnon, inactiveFile)])
  {
    var active, inactive := (activeAnon + activeFile) % U64, (inactiveAnon + inactiveFile) % U64;
    TwoShape(ACTIVE_PAGES, INACTIVE_PAGES, CLOSE);
    PlainTexts();
    buffer := Snprintf(PAGES_SCAN, [active, inactive]);
    PagesReportRoundTrip(active, inactive, "");
  }

  lemma SwapFigures(total: nat, free: nat)
    requires free <= total && total * 4 < U64
    ensures Kilobytes(total) == 4 * total && Kilobytes(free) == 4 * free
    ensures Kilobytes(Minus(total, free)) == 4 * (total - free)
  {
  }

  /** handle_swap_info() reads back the very numbers that get_swap_info() computed. */
  method SwapInfoThroughApi(totalswap: nat, freeswap: nat) returns (total: nat, used: nat, free: nat)
    requires freeswap <= totalswap && totalswap * 4 < U64
    ensures total == 4 * totalswap && free == 4 * freeswap && used + free == total
  {
    var buffer := GetSwapInfo(totalswap, freeswap);
    var data := Before(buffer[..], '\0');
    SwapFigures(totalswap, freeswap);
    SwapReportRoundTrip(4 * totalswap, 4 * (totalswap - freeswap), 4 * freeswap, "");
    assert data + "" == data;
    var values := Scan(SWAP_SCAN, data);
    return values[0], values[1], values[2];
  }

  lemma MinusFigure(a: nat, b: nat)
    requires a < U64 && b < U64
    ensures Minus(a, b) == if b <= a then a - b else U64 - (b - a)
  {
  }

  lemma PlusFigure(a: nat, b: nat)
    requires a < U64 && b < U64
    ensures Plus(a, b) == a + b - if a + b < U64 then 0 else U64
  {
  }

  /** sscanf() of a report with two numbers. */
  method ScanTwo(scan: Format, buffer: array<char>, ghost first: nat, ghost second: nat) returns (a: nat, b: nat)
    requires Scan(scan, Before(buffer[..], '\0') + "") == [first, second]
    ensures a == first && b == second
  {
    var data := Before(buffer[..], '\0');
    assert data + "" == data;
    var values := Scan(scan, data);
    return values[0], values[1];
  }

  /** handle_page_faults_info(): the numbers it returns are exact as soon as there are at least as many file
      pages as free ones, and otherwise the first one has wrapped around. */
  method PageFaultsThroughApi(filePages: nat, freePages: nat, fileMapped: nat) returns (minor: nat, major: nat)
    requires filePages < U64 && freePages < U64 && fileMapped < U64
    ensures major == fileMapped
    ensures minor == if freePages <= filePages then filePages - freePages else U64 - (freePages - filePages)
  {
    var buffer := GetPageFaultsInfo(filePages, freePages, fileMapped);
    ghost var minus := Minus(filePages, freePages);
    MinusFigure(filePages, freePages);
    FaultsReportRoundTrip(minus, fileMapped, "");
    minor, major := ScanTwo(FAULTS_SCAN, buffer, minus, fileMapped);
  }

  /** handle_memory_pages_info(): the numbers it returns are the exact sums, or each has wrapped around once. */
  method MemoryPagesThroughApi(activeAnon: nat, activeFile: nat, inactiveAnon: nat, inactiveFile: nat)
    returns (active: nat, inactive: nat)
    requires activeAnon < U64 && activeFile < U64 && inactiveAnon < U64 && inactiveFile < U64
    ensures active == activeAnon + activeFile - (if activeAnon + activeFile < U64 then 0 else U64)
    ensures inactive == inactiveAnon + inactiveFile - (if inactiveAnon + inactiveFile < U64 then 0 else U64)
  {
    var buffer := GetMemoryPagesInfo(activeAnon, activeFile, inactiveAnon, inactiveFile);
    ghost var sum, sum' := Plus(activeAnon, activeFile), Plus(inactiveAnon, inactiveFile);
    PlusFigure(activeAnon, activeFile);
    PlusFigure(inactiveAnon, inactiveFile);
    PagesReportRoundTrip(sum, sum', "");
    active, inactive := ScanTwo(PAGES_SCAN, buffer, sum, sum');
  }
}
