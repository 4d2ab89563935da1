/**
 * The string primitives of the Kotlin/JVM runtime that the maintenance-file
 * reader and the input dialogs rely on: `Char.isWhitespace`/`String.trim`,
 * `String.split`, `String.toIntOrNull`, the decimal part of
 * `String.toFloatOrNull`, `Int.toString`, the plain-decimal rendering of
 * `Float.toString`, and the line splitting of `BufferedReader`.
 */
module Text {
  import opened Wrappers

  const Int32Min: int := -0x8000_0000
  const Int32Max: int := 0x7FFF_FFFF

  predicate InInt32(n: int) { Int32Min <= n <= Int32Max }

  // ---------- Characters ----------

  predicate IsDigit(c: char) { '0' <= c <= '9' }

  predicate AllDigits(s: string) { forall i | 0 <= i < |s| :: IsDigit(s[i]) }

  function DigitChar(d: nat): (c: char)
    requires d < 10
    ensures IsDigit(c) && c as int - '0' as int == d
  {
    ('0' as int + d) as char
  }

  /** Kotlin's `Char.isWhitespace` on the JVM: Java whitespace or a Unicode space separator. */
  predicate IsWhitespace(c: char) {
    var k := c as int;
    (9 <= k <= 13) || (0x1C <= k <= 0x20) || k == 0xA0 || k == 0x1680
    || (0x2000 <= k <= 0x200A) || k == 0x2028 || k == 0x2029 || k == 0x202F
    || k == 0x205F || k == 0x3000
  }

  /** The blank characters `Float.parseFloat` ignores around a number: every code point up to U+0020. */
  predicate IsControlOrSpace(c: char) { c <= ' ' }

  predicate IsLineBreak(c: char) { c == '\n' || c == '\r' }

  predicate NoLineBreak(s: string) { forall i | 0 <= i < |s| :: !IsLineBreak(s[i]) }

  // ---------- Searching and trimming ----------

  /** The first index whose character satisfies `p`. */
  function IndexWhere(s: string, p: char -> bool): (r: Option<nat>)
    ensures r.Some? ==> r.value < |s| && p(s[r.value])
    ensures r.Some? ==> forall j | 0 <= j < r.value :: !p(s[j])
    ensures r.None? ==> forall j | 0 <= j < |s| :: !p(s[j])
  {
    if s == [] then None
    else if p(s[0]) then Some(0)
    else match IndexWhere(s[1..], p)
      case None => None
      case Some(i) => Some(i + 1)
  }

  function IndexOf(s: string, c: char): (r: Option<nat>)
    ensures r.Some? ==> r.value < |s| && s[r.value] == c && c !in s[..r.value]
    ensures r.None? <==> c !in s
  {
    var r := IndexWhere(s, x => x == c);
    assert r.Some? ==> forall j | 0 <= j < r.value :: s[..r.value][j] == s[j];
    r
  }

  function TrimStartBy(s: string, blank: char -> bool): (r: string)
    ensures |r| <= |s| && r == s[|s| - |r|..]
    ensures r == [] || !blank(r[0])
    ensures forall i | 0 <= i < |s| - |r| :: blank(s[i])
  {
    if s != [] && blank(s[0]) then TrimStartBy(s[1..], blank) else s
  }

  function TrimEndBy(s: string, blank: char -> bool): (r: string)
    ensures |r| <= |s| && r == s[..|r|]
    ensures r == [] || !blank(r[|r| - 1])
    ensures forall i | |r| <= i < |s| :: blank(s[i])
  {
    if s != [] && blank(s[|s| - 1]) then TrimEndBy(s[..|s| - 1], blank) else s
  }

  /** Drops the characters satisfying `blank` from both ends. */
  function TrimBy(s: string, blank: char -> bool): (r: string)
    ensures r == [] || (!blank(r[0]) && !blank(r[|r| - 1]))
    ensures exists i, j | 0 <= i <= j <= |s| :: r == s[i..j]
  {
    var t := TrimStartBy(s, blank);
    var r := TrimEndBy(t, blank);
    assert r == s[|s| - |t|..|s| - |t| + |r|];
    r
  }

  /** Every character of `t` is a blank. */
  predicate AllWhitespace(t: string)
  {
    forall k | 0 <= k < |t| :: IsWhitespace(t[k])
  }

  /** Kotlin's `String.trim()`: the part between the leading and the trailing blanks. */
  function Trim(s: string): (r: string)
    ensures r == [] || (!IsWhitespace(r[0]) && !IsWhitespace(r[|r| - 1]))
    ensures exists i, j | 0 <= i <= j <= |s| :: r == s[i..j] && AllWhitespace(s[..i]) && AllWhitespace(s[j..])
  {
    TrimCutsBlanks(s);
    TrimBy(s, IsWhitespace)
  }

  /** Trimming keeps a middle slice and cuts only blanks on either side of it. */
  lemma TrimCutsBlanks(s: string)
    ensures exists i, j | 0 <= i <= j <= |s| ::
      TrimBy(s, IsWhitespace) == s[i..j] && AllWhitespace(s[..i]) && AllWhitespace(s[j..])
  {
    var t := TrimStartBy(s, IsWhitespace);
    var r := TrimEndBy(t, IsWhitespace);
    var i, j := |s| - |t|, |s| - |t| + |r|;
    assert r == s[i..j];
    assert forall k | j <= k < |s| :: s[k] == t[k - i];
    assert AllWhitespace(s[..i]) && AllWhitespace(s[j..]);
  }

  lemma {:induction false} TrimOfTrimmed(s: string, blank: char -> bool)
    requires s == [] || (!blank(s[0]) && !blank(s[|s| - 1]))
    ensures TrimBy(s, blank) == s
  {
  }

  lemma TrimTwice(s: string)
    ensures Trim(Trim(s)) == Trim(s)
  {
    TrimOfTrimmed(Trim(s), IsWhitespace);
  }

  /** Kotlin's `String.split(",")`: every piece between separators, empty pieces included. */
  function Split(s: string, sep: char): (parts: seq<string>)
    ensures |parts| >= 1
    ensures forall i | 0 <= i < |parts| :: sep !in parts[i]
    decreases |s|
  {
    match IndexOf(s, sep)
    case None => [s]
    case Some(i) => [s[..i]] + Split(s[i + 1..], sep)
  }

  /** Glues pieces back together with the separator between them. */
  function Join(parts: seq<string>, sep: char): string
    requires |parts| >= 1
  {
    if |parts| == 1 then parts[0] else parts[0] + [sep] + Join(parts[1..], sep)
  }

  lemma {:induction false} JoinSplit(s: string, sep: char)
    ensures Join(Split(s, sep), sep) == s
    decreases |s|
  {
    if IndexOf(s, sep).Some? {
      var i := IndexOf(s, sep).value;
      var rest := s[i + 1..];
      JoinSplit(rest, sep);
      SplitAt(s, sep, i);
      JoinCons(s[..i], Split(rest, sep), sep);
      assert s == s[..i] + [sep] + rest;
    }
  }

  lemma SplitAt(s: string, sep: char, i: nat)
    requires IndexOf(s, sep) == Some(i)
    ensures i < |s| && Split(s, sep) == [s[..i]] + Split(s[i + 1..], sep)
  {
  }

  lemma JoinCons(p: string, ps: seq<string>, sep: char)
    requires |ps| >= 1
    ensures Join([p] + ps, sep) == p + [sep] + Join(ps, sep)
  {
    assert ([p] + ps)[1..] == ps;
  }

  lemma {:induction false} SplitJoin(parts: seq<string>, sep: char)
    requires |parts| >= 1 && forall i | 0 <= i < |parts| :: sep !in parts[i]
    ensures Split(Join(parts, sep), sep) == parts
  {
    if |parts| > 1 {
      SplitJoin(parts[1..], sep);
      SplitAfterPiece(parts[0], Join(parts[1..], sep), sep);
      assert parts == [parts[0]] + parts[1..];
    }
  }

  lemma IndexOfAfter(a: string, c: char, b: string)
    requires c !in a
    ensures IndexOf(a + [c] + b, c) == Some(|a|)
  {
    var s := a + [c] + b;
    assert s[|a|] == c;
    assert s[..|a|] == a;
  }

  /** Splitting a piece followed by a separator peels that piece off. */
  lemma SplitAfterPiece(a: string, b: string, sep: char)
    requires sep !in a
    ensures Split(a + [sep] + b, sep) == [a] + Split(b, sep)
  {
    var s := a + [sep] + b;
    IndexOfAfter(a, sep, b);
    assert s[..|a|] == a && s[|a| + 1..] == b;
  }

  /** Splitting at a separator concatenates the pieces of both sides. */
  lemma {:induction false} SplitConcat(a: string, b: string, sep: char)
    ensures Split(a + [sep] + b, sep) == Split(a, sep) + Split(b, sep)
    decreases |a|
  {
    var s := a + [sep] + b;
    match IndexOf(a, sep)
    case None =>
      SplitAfterPiece(a, b, sep);
    case Some(i) =>
      assert s[i] == sep && s[..i] == a[..i];
      assert IndexOf(s, sep) == Some(i);
      assert s[i + 1..] == a[i + 1..] + [sep] + b;
      SplitConcat(a[i + 1..], b, sep);
      ConcatAssoc([a[..i]], Split(a[i + 1..], sep), Split(b, sep));
  }

  lemma NoLineBreakConcat(a: string, b: string)
    requires NoLineBreak(a) && NoLineBreak(b)
    ensures NoLineBreak(a + b)
  {
  }

  lemma NoLineBreakOf(s: string)
    requires '\n' !in s && '\r' !in s
    ensures NoLineBreak(s)
  {
  }

  /** Kotlin's `String.split(",", limit = 2)`: at most one cut, at the first separator. */
  function SplitOnce(s: string, sep: char): (parts: seq<string>)
    ensures |parts| == 1 <==> sep !in s
    ensures |parts| == 1 || |parts| == 2
    ensures |parts| == 1 ==> parts[0] == s
    ensures |parts| == 2 ==> sep !in parts[0] && s == parts[0] + [sep] + parts[1]
  {
    match IndexOf(s, sep)
    case None => [s]
    case Some(i) =>
      assert s == s[..i] + [sep] + s[i + 1..];
      [s[..i], s[i + 1..]]
  }

  /** Cutting at the first separator recovers the two sides when the left one has none. */
  lemma SplitOnceAt(a: string, sep: char, b: string)
    requires sep !in a
    ensures SplitOnce(a + [sep] + b, sep) == [a, b]
  {
    var s := a + [sep] + b;
    IndexOfAfter(a, sep, b);
    assert s[..|a|] == a && s[|a| + 1..] == b;
  }

  /**
   * Kotlin's `String.length`: the number of UTF-16 code units, two for each
   * character beyond the Basic Multilingual Plane.
   */
  function Utf16Length(s: string): (n: nat)
    ensures |s| <= n <= 2 * |s|
    ensures (forall k | 0 <= k < |s| :: s[k] as int <= 0xFFFF) ==> n == |s|
  {
    if s == [] then 0
    else
      var prior := s[..|s| - 1];
      assert forall k | 0 <= k < |prior| :: prior[k] == s[k];
      Utf16Length(prior) + (if s[|s| - 1] as int > 0xFFFF then 2 else 1)
  }

  // ---------- Integers ----------

  function Pow10(k: nat): (p: nat)
    ensures p >= 1
  {
    if k == 0 then 1 else 10 * Pow10(k - 1)
  }

  /** The value of a string of decimal digits, most significant first. */
  function DigitsValue(s: string): nat
    requires AllDigits(s)
  {
    if s == [] then 0 else 10 * DigitsValue(s[..|s| - 1]) + (s[|s| - 1] as int - '0' as int)
  }

  /** The decimal digits of `n` without leading zeros (`"0"` for zero). */
  function NatToString(n: nat): (s: string)
    ensures 1 <= |s| && AllDigits(s)
    ensures DigitsValue(s) == n
    ensures s[0] == '0' ==> n == 0
  {
    if n < 10 then [DigitChar(n)]
    else
      var p := NatToString(n / 10);
      var s := p + [DigitChar(n % 10)];
      assert s[..|s| - 1] == p;
      s
  }

  lemma {:induction false} NatToStringLength(n: nat, k: nat)
    requires k >= 1
    ensures |NatToString(n)| <= k <==> n < Pow10(k)
  {
    if n >= 10 && k >= 2 {
      NatToStringLength(n / 10, k - 1);
    }
  }

  /** Kotlin's `Int.toString()`. */
  function FormatInt(n: int): (s: string)
    ensures |s| >= 1 && (n >= 0 <==> IsDigit(s[0]))
    ensures forall i | 0 <= i < |s| :: IsDigit(s[i]) || s[i] == '-'
  {
    if n < 0 then "-" + NatToString(-n) else NatToString(n)
  }

  /** A printed Int has no comma, no line break and no blank. */
  lemma FormatIntPlain(n: int)
    ensures ',' !in FormatInt(n) && NoLineBreak(FormatInt(n))
    ensures forall i | 0 <= i < |FormatInt(n)| :: !IsWhitespace(FormatInt(n)[i])
  {
    var s := FormatInt(n);
    forall i | 0 <= i < |s| ensures s[i] != ',' && !IsLineBreak(s[i]) && !IsWhitespace(s[i]) {
      assert IsDigit(s[i]) || s[i] == '-';
    }
  }

  lemma FormatIntTrimmed(n: int)
    ensures Trim(FormatInt(n)) == FormatInt(n)
  {
    FormatIntPlain(n);
    TrimOfTrimmed(FormatInt(n), IsWhitespace);
  }

  /** Kotlin's `String.toIntOrNull()`: an optional sign and ASCII digits, within 32 bits. */
  function ParseInt(s: string): (r: Option<int>)
    ensures r.Some? ==> InInt32(r.value)
  {
    if |s| == 0 then None
    else if s[0] == '-' || s[0] == '+' then
      if |s| == 1 || !AllDigits(s[1..]) then None
      else
        var v: int := if s[0] == '-' then -(DigitsValue(s[1..]) as int) else DigitsValue(s[1..]);
        if InInt32(v) then Some(v) else None
    else if AllDigits(s) && DigitsValue(s) <= Int32Max then Some(DigitsValue(s))
    else None
  }

  lemma IntRoundTrip(n: int)
    requires InInt32(n)
    ensures ParseInt(FormatInt(n)) == Some(n)
  {
    if n < 0 {
      assert FormatInt(n)[1..] == NatToString(-n);
    }
  }

  /** The dialog's "at most 6 characters" test on `offset.toString()`. */
  lemma {:induction false} FormatIntLength(n: int, k: nat)
    requires k >= 2
    ensures |FormatInt(n)| <= k <==> -(Pow10(k - 1) as int) < n < Pow10(k)
  {
    if n < 0 {
      NatToStringLength(-n, k - 1);
    } else {
      NatToStringLength(n, k);
      assert Pow10(k) == 10 * Pow10(k - 1);
    }
  }

  /** An Int prints in at most six characters exactly when it lies in -99999..999999. */
  lemma FormatIntSixChars(n: int)
    ensures |FormatInt(n)| <= 6 <==> -99_999 <= n <= 999_999
  {
    FormatIntLength(n, 6);
    assert Pow10(1) == 10;
    assert Pow10(2) == 100;
    assert Pow10(3) == 1_000;
    assert Pow10(4) == 10_000;
    assert Pow10(5) == 100_000;
    assert Pow10(6) == 1_000_000;
  }

  // ---------- Decimal numbers ----------

  /** The number written `whole.fraction`. */
  function DecimalValue(whole: string, fraction: string): (v: real)
    requires AllDigits(whole) && AllDigits(fraction)
    ensures v >= 0.0
  {
    DigitsValue(whole) as real + DigitsValue(fraction) as real / Pow10(|fraction|) as real
  }

  /** Unsigned `digits[.digits]`, at least one digit in all. */
  function ParseUnsignedDecimal(s: string): (r: Option<real>)
    ensures r.Some? ==> r.value >= 0.0
  {
    var point := IndexOf(s, '.');
    var whole := if point.Some? then s[..point.value] else s;
    var fraction := if point.Some? then s[point.value + 1..] else "";
    if AllDigits(whole) && AllDigits(fraction) && |whole| + |fraction| >= 1 then
      Some(DecimalValue(whole, fraction))
    else None
  }

  /**
   * The plain-decimal forms accepted by Kotlin's `String.toFloatOrNull()`:
   * surrounding blanks, an optional sign, digits with an optional point.
   */
  function ParseFloat(s: string): (r: Option<real>)
    ensures r.Some? && r.value < 0.0 ==> var t := TrimBy(s, IsControlOrSpace); t != [] && t[0] == '-'
  {
    var t := TrimBy(s, IsControlOrSpace);
    if |t| > 0 && (t[0] == '+' || t[0] == '-') then
      match ParseUnsignedDecimal(t[1..])
      case None => None
      case Some(v) => Some(if t[0] == '-' then -v else v)
    else ParseUnsignedDecimal(t)
  }

  /**
   * A non-negative number as `Float.toString` prints it in plain notation:
   * the whole part, a point, and at least one fraction digit (`500.0`, `12.75`).
   */
  datatype Decimal = Decimal(whole: nat, fraction: string) {
    predicate Valid() { 1 <= |fraction| && AllDigits(fraction) }

    function Value(): real
      requires Valid()
    {
      DecimalValue(NatToString(whole), fraction)
    }

    function Render(): (s: string)
      requires Valid()
      ensures |s| >= 3 && IsDigit(s[0]) && IsDigit(s[|s| - 1])
      ensures forall i | 0 <= i < |s| :: IsDigit(s[i]) || s[i] == '.'
    {
      NatToString(whole) + "." + fraction
    }
  }

  lemma PointedDecimal(w: string, f: string)
    requires AllDigits(w) && AllDigits(f) && |w| + |f| >= 1
    ensures ParseUnsignedDecimal(w + "." + f) == Some(DecimalValue(w, f))
  {
    var s := w + "." + f;
    assert '.' !in w;
    IndexOfAfter(w, '.', f);
    var point := IndexOf(s, '.');
    assert point == Some(|w|);
    assert s[..point.value] == w;
    assert s[point.value + 1..] == f;
  }

  lemma DecimalRoundTrip(d: Decimal)
    requires d.Valid()
    ensures ParseFloat(d.Render()) == Some(d.Value())
  {
    var s := d.Render();
    TrimOfTrimmed(s, IsControlOrSpace);
    assert TrimBy(s, IsControlOrSpace) == s;
    assert s[0] != '+' && s[0] != '-';
    PointedDecimal(NatToString(d.whole), d.fraction);
  }

  // ---------- Lines ----------

  /**
   * `BufferedReader`'s lines: each line ends at `\n`, `\r` or `\r\n`; a final
   * line without a terminator still counts; an empty text has no lines.
   */
  function Lines(s: string): (lines: seq<string>)
    ensures forall k | 0 <= k < |lines| :: NoLineBreak(lines[k])
    ensures s != [] ==> |lines| >= 1
    decreases |s|
  {
    if s == [] then []
    else match IndexWhere(s, IsLineBreak)
      case None => [s]
      case Some(i) => [s[..i]] + Lines(s[NextLineStart(s, i)..])
  }

  /** Where the line after a break at `i` starts: `\r\n` counts as one break. */
  function NextLineStart(s: string, i: nat): (n: nat)
    requires i < |s|
    ensures i < n <= |s|
  {
    if s[i] == '\r' && i + 1 < |s| && s[i + 1] == '\n' then i + 2 else i + 1
  }

  /** Text that is empty or ends with a line feed: appending to it starts a new line. */
  predicate Terminated(s: string) { s == [] || s[|s| - 1] == '\n' }

  lemma {:induction false} LinesAppend(a: string, b: string)
    requires Terminated(a)
    ensures Lines(a + b) == Lines(a) + Lines(b)
    decreases |a|
  {
    if a == [] {
      assert a + b == b;
    } else {
      var k := FirstBreakOfPrefix(a, b);
      var next := NextLineStart(a, k);
      SlicesOfAppend(a, b, k, next);
      TerminatedSuffix(a, next);
      LinesAppend(a[next..], b);
      LinesAppendAtBreak(a, b, k, next);
    }
  }

  /** The step of `LinesAppend`: both texts have their first line end at the same break. */
  lemma LinesAppendAtBreak(a: string, b: string, k: nat, next: nat)
    requires k < |a| && IndexWhere(a, IsLineBreak) == Some(k) && IndexWhere(a + b, IsLineBreak) == Some(k)
    requires next == NextLineStart(a, k) && NextLineStart(a + b, k) == next
    requires (a + b)[..k] == a[..k] && (a + b)[next..] == a[next..] + b
    requires Lines(a[next..] + b) == Lines(a[next..]) + Lines(b)
    ensures Lines(a + b) == Lines(a) + Lines(b)
  {
    LinesAtBreak(a + b, k);
    LinesAtBreak(a, k);
    ConcatAssoc([a[..k]], Lines(a[next..]), Lines(b));
  }

  lemma ConcatAssoc<T>(x: seq<T>, y: seq<T>, z: seq<T>)
    ensures x + (y + z) == (x + y) + z
  {
  }

  lemma SlicesOfAppend(a: string, b: string, k: nat, next: nat)
    requires k < |a| && next == NextLineStart(a, k)
    requires a[k] == '\r' ==> k + 1 < |a|
    ensures NextLineStart(a + b, k) == next
    ensures (a + b)[..k] == a[..k] && (a + b)[next..] == a[next..] + b
  {
    assert k + 1 < |a| ==> (a + b)[k + 1] == a[k + 1];
  }

  lemma TerminatedSuffix(a: string, i: nat)
    requires Terminated(a) && i <= |a|
    ensures Terminated(a[i..])
  {
    if a[i..] != [] { assert a[i..][|a[i..]| - 1] == a[|a| - 1]; }
  }

  lemma LinesAtBreak(s: string, k: nat)
    requires IndexWhere(s, IsLineBreak) == Some(k)
    ensures Lines(s) == [s[..k]] + Lines(s[NextLineStart(s, k)..])
  {
  }

  /** A terminated non-empty text has its first break where the text followed by more text has it. */
  lemma FirstBreakOfPrefix(a: string, b: string) returns (k: nat)
    requires Terminated(a) && a != []
    ensures k < |a| && IndexWhere(a, IsLineBreak) == Some(k) && IndexWhere(a + b, IsLineBreak) == Some(k)
    ensures a[k] == '\r' ==> k + 1 < |a|
  {
    assert IsLineBreak(a[|a| - 1]);
    var i := IndexWhere(a, IsLineBreak);
    k := i.value;
    assert forall j | 0 <= j <= k :: (a + b)[j] == a[j];
  }

  /** A text without line breaks followed by a line feed is exactly one line. */
  lemma OneLine(line: string)
    requires NoLineBreak(line)
    ensures Lines(line + "\n") == [line]
  {
    var s := line + "\n";
    assert IsLineBreak(s[|line|]);
    assert forall j | 0 <= j < |line| :: s[j] == line[j];
    assert s[..|line|] == line;
    assert s[|line| + 1..] == [];
  }

  /** A non-empty text without line breaks is one line. */
  lemma UnterminatedLine(line: string)
    requires line != [] && NoLineBreak(line)
    ensures Lines(line) == [line]
  {
  }
}
