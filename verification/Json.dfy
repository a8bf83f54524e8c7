/** The JSON tokens of the config page: what the writer puts out and what the reader makes of a text. */
module Json {
  import opened Wrappers

  /** What a reader function returns: a failure, or a value and the position behind it. */
  datatype Parsed<T> = Bad | Good(value: T, at: nat)

  /** `s` stands at position `p` of `t`. */
  predicate At(t: string, p: nat, s: string) {
    p + |s| <= |t| && t[p..p + |s|] == s
  }

  lemma AtSplit(t: string, p: nat, a: string, b: string)
    requires At(t, p, a + b)
    ensures At(t, p, a) && At(t, p + |a|, b)
  {
    var ab := t[p..p + |a + b|];
    assert t[p..p + |a|] == ab[..|a|];
    assert t[p + |a|..p + |a| + |b|] == ab[|a|..];
  }

  lemma AtFits(t: string, p: nat, s: string)
    requires At(t, p, s)
    ensures p + |s| <= |t|
  {
  }

  lemma AtIndex(t: string, p: nat, s: string, i: nat)
    requires At(t, p, s) && i < |s|
    ensures p + i < |t| && t[p + i] == s[i]
  {
    assert t[p + i] == t[p..p + |s|][i];
  }

  // ---- Writing ----

  function Hex(n: nat): (c: char)
    requires n < 16
    ensures HexValue(c) == n && c > ' ' && c != '"' && c != '\\'
  {
    if n < 10 then '0' + n as char else 'a' + (n - 10) as char
  }

  /** -1 for a character that is no hexadecimal digit. */
  function HexValue(c: char): (n: int)
    ensures -1 <= n < 16
  {
    if '0' <= c <= '9' then c as int - '0' as int
    else if 'a' <= c <= 'f' then c as int - 'a' as int + 10
    else if 'A' <= c <= 'F' then c as int - 'A' as int + 10
    else -1
  }

  function EscapeChar(c: char): (e: string)
    ensures 1 <= |e| <= 6
  {
    if c == '"' || c == '\\' then ['\\', c]
    else if c < ' ' then "\\u00" + [Hex(c as int / 16), Hex(c as int % 16)]
    else [c]
  }

  function Escaped(s: string): (e: string)
    ensures |s| <= |e| <= 6 * |s|
  {
    if s == "" then "" else EscapeChar(s[0]) + Escaped(s[1..])
  }

  function Quoted(s: string): (q: string)
    ensures 2 + |s| <= |q| <= 2 + 6 * |s|
  {
    "\"" + Escaped(s) + "\""
  }

  /** Nothing in it needs an escape. */
  predicate Plain(s: string) {
    forall i :: 0 <= i < |s| ==> s[i] >= ' ' && s[i] != '"' && s[i] != '\\'
  }

  lemma PlainIsNulFree(s: string)
    requires Plain(s)
    ensures NulFree(s)
  {
  }

  lemma {:induction false} EscapedPlain(s: string)
    requires Plain(s)
    ensures Escaped(s) == s
  {
    if s != "" {
      EscapedPlain(s[1..]);
      assert s == [s[0]] + s[1..];
    }
  }

  function Digit(n: nat): (c: char)
    requires n < 10
    ensures '0' <= c <= '9'
  {
    '0' + n as char
  }

  function Decimal(n: nat): (d: string)
    ensures |d| > 0 && forall i :: 0 <= i < |d| ==> IsDigit(d[i])
  {
    if n < 10 then [Digit(n)] else Decimal(n / 10) + [Digit(n % 10)]
  }

  function FlagText(b: bool): string {
    if b then "true" else "false"
  }

  // ---- Reading ----

  predicate IsSpace(c: char) {
    c == ' ' || c == '\t' || c == '\r' || c == '\n'
  }

  predicate IsDigit(c: char) {
    '0' <= c <= '9'
  }

  function DigitValue(c: char): (n: nat)
    requires IsDigit(c)
    ensures n < 10
  {
    c as int - '0' as int
  }

  function SkipSpace(t: string, p: nat): (q: nat)
    requires p <= |t|
    ensures p <= q <= |t| && (q < |t| ==> !IsSpace(t[q]))
    decreases |t| - p
  {
    if p < |t| && IsSpace(t[p]) then SkipSpace(t, p + 1) else p
  }

  function Consume(t: string, p: nat, c: char): (r: Parsed<char>)
    requires p <= |t|
    ensures r.Good? ==> p < r.at <= |t|
  {
    var q := SkipSpace(t, p);
    if q < |t| && t[q] == c then Good(c, q + 1) else Bad
  }

  /** Four hexadecimal digits that stand for an ASCII character other than NUL. */
  function UnicodeEscape(t: string, p: nat): (r: Parsed<char>)
    requires p <= |t|
    ensures r.Good? ==> r.at == p + 4 <= |t| && r.value != '\0'
  {
    if |t| - p < 4 then Bad else
    var a, b, c, d := HexValue(t[p]), HexValue(t[p + 1]), HexValue(t[p + 2]), HexValue(t[p + 3]);
    if a < 0 || b < 0 || c < 0 || d < 0 then Bad else
    var code := ((a * 16 + b) * 16 + c) * 16 + d;
    if code == 0 || code >= 0x80 then Bad else Good(code as char, p + 4)
  }

  /** The character an escape stands for; `p` is behind the backslash. */
  function Escape(t: string, p: nat): (r: Parsed<char>)
    requires p <= |t|
    ensures r.Good? ==> p < r.at <= |t| && (t[p] != '\0' ==> r.value != '\0')
  {
    if p >= |t| then Bad else
    match t[p]
    case '"' => Good('"', p + 1)
    case '\\' => Good('\\', p + 1)
    case '/' => Good('/', p + 1)
    case 'b' => Good(8 as char, p + 1)
    case 'f' => Good(12 as char, p + 1)
    case 'n' => Good('\n', p + 1)
    case 'r' => Good('\r', p + 1)
    case 't' => Good('\t', p + 1)
    case 'u' => UnicodeEscape(t, p + 1)
    case _ => Bad
  }

  /** One character of a string, plain or escaped. */
  function ReadChar(t: string, p: nat): (r: Parsed<char>)
    requires p < |t|
    ensures r.Good? ==> p < r.at <= |t| && r.value != '\0'
  {
    if t[p] < ' ' then Bad
    else if t[p] == '\\' then Escape(t, p + 1)
    else Good(t[p], p + 1)
  }

  /** The rest of a string, behind what was read before. Without a limit the string is only skipped. */
  function ReadChars(t: string, p: nat, before: string, limit: Option<nat>): (r: Parsed<string>)
    requires p <= |t|
    ensures r.Good? ==> p < r.at <= |t| && before <= r.value
    ensures r.Good? && limit.Some? && |before| < limit.value ==> |r.value| < limit.value
    ensures r.Good? && NulFree(before) ==> NulFree(r.value)
    decreases |t| - p
  {
    if p >= |t| then Bad else
    if t[p] == '"' then Good(before, p + 1) else
    match ReadChar(t, p)
    case Bad => Bad
    case Good(c, q) =>
      if limit.Some? && |before| + 1 >= limit.value then Bad else ReadChars(t, q, before + [c], limit)
  }

  predicate NulFree(s: string) {
    forall i :: 0 <= i < |s| ==> s[i] != '\0'
  }

  function ReadString(t: string, p: nat, limit: Option<nat>): (r: Parsed<string>)
    requires p <= |t|
    ensures r.Good? ==> p < r.at <= |t| && NulFree(r.value)
    ensures r.Good? && limit.Some? && limit.value > 0 ==> |r.value| < limit.value
  {
    match Consume(t, p, '"')
    case Bad => Bad
    case Good(_, q) => ReadChars(t, q, "", limit)
  }

  /** Nine digits at most. */
  function ReadDigits(t: string, p: nat, count: nat, n: nat): (r: Parsed<nat>)
    requires p <= |t|
    ensures r.Good? ==> p <= r.at <= |t|
    decreases |t| - p
  {
    if p < |t| && IsDigit(t[p]) then
      if count + 1 > 9 then Bad else ReadDigits(t, p + 1, count + 1, n * 10 + DigitValue(t[p]))
    else if count == 0 then Bad else Good(n, p)
  }

  function ReadNumber(t: string, p: nat): (r: Parsed<nat>)
    requires p <= |t|
    ensures r.Good? ==> p <= r.at <= |t|
  {
    ReadDigits(t, SkipSpace(t, p), 0, 0)
  }

  function ReadWord(t: string, p: nat, word: string): (r: Parsed<string>)
    requires p <= |t|
    ensures r.Good? ==> p + |word| <= r.at <= |t|
  {
    var q := SkipSpace(t, p);
    if At(t, q, word) then Good(word, q + |word|) else Bad
  }

  function ReadBool(t: string, p: nat): (r: Parsed<bool>)
    requires p <= |t|
    ensures r.Good? ==> p < r.at <= |t|
  {
    match ReadWord(t, p, "true")
    case Good(_, q) => Good(true, q)
    case Bad =>
      match ReadWord(t, p, "false")
      case Good(_, q) => Good(false, q)
      case Bad => Bad
  }

  /** A string, a number, a bool or null. */
  function SkipValue(t: string, p: nat): (r: Parsed<()>)
    requires p <= |t|
    ensures r.Good? ==> p <= r.at <= |t|
  {
    var q := SkipSpace(t, p);
    if q < |t| && t[q] == '"' then
      (match ReadString(t, q, None) case Good(_, e) => Good((), e) case Bad => Bad)
    else
      match ReadNumber(t, q)
      case Good(_, e) => Good((), e)
      case Bad =>
        match ReadBool(t, q)
        case Good(_, e) => Good((), e)
        case Bad => match ReadWord(t, q, "null") case Good(_, e) => Good((), e) case Bad => Bad
  }

  // ---- Reading undoes writing ----

  lemma ConsumeAt(t: string, p: nat, c: char)
    requires At(t, p, [c]) && !IsSpace(c)
    ensures Consume(t, p, c) == Good(c, p + 1)
  {
    AtIndex(t, p, [c], 0);
  }

  lemma ReadCharAt(t: string, p: nat, c: char)
    requires At(t, p, EscapeChar(c)) && c != '\0'
    ensures p < |t| && t[p] != '"' && ReadChar(t, p) == Good(c, p + |EscapeChar(c)|)
  {
    var e := EscapeChar(c);
    AtIndex(t, p, e, 0);
    if c == '"' || c == '\\' {
      AtIndex(t, p, e, 1);
    } else if c < ' ' {
      AtIndex(t, p, e, 1); AtIndex(t, p, e, 2); AtIndex(t, p, e, 3); AtIndex(t, p, e, 4); AtIndex(t, p, e, 5);
    }
  }

  lemma {:induction false} ReadCharsAt(t: string, p: nat, s: string, before: string, limit: Option<nat>)
    requires NulFree(s) && At(t, p, Escaped(s) + "\"") && (limit.Some? ==> |before| + |s| < limit.value)
    ensures ReadChars(t, p, before, limit) == Good(before + s, p + |Escaped(s)| + 1)
    decreases |s|
  {
    hide EscapeChar, ReadChar, At;
    if s == "" {
      assert Escaped(s) + "\"" == "\"";
      AtIndex(t, p, "\"", 0);
      assert before + s == before;
    } else {
      var e, rest := EscapeChar(s[0]), Escaped(s[1..]) + "\"";
      assert Escaped(s) + "\"" == e + rest;
      AtSplit(t, p, e, rest);
      ReadCharAt(t, p, s[0]);
      AtFits(t, p, e);
      ReadCharsAt(t, p + |e|, s[1..], before + [s[0]], limit);
      assert (before + [s[0]]) + s[1..] == before + s;
    }
  }

  lemma ReadStringAt(t: string, p: nat, s: string, limit: Option<nat>)
    requires NulFree(s) && At(t, p, Quoted(s)) && (limit.Some? ==> |s| < limit.value)
    ensures ReadString(t, p, limit) == Good(s, p + |Quoted(s)|)
  {
    hide ReadChars, Escaped;
    assert Quoted(s) == "\"" + (Escaped(s) + "\"");
    AtSplit(t, p, "\"", Escaped(s) + "\"");
    ConsumeAt(t, p, '"');
    ReadCharsAt(t, p + 1, s, "", limit);
    assert "" + s == s;
  }

  function Gather(n: nat, d: string): nat
    requires forall i :: 0 <= i < |d| ==> IsDigit(d[i])
    decreases |d|
  {
    if d == "" then n else Gather(n * 10 + DigitValue(d[0]), d[1..])
  }

  lemma {:induction false} GatherSnoc(n: nat, d: string, c: char)
    requires IsDigit(c) && forall i :: 0 <= i < |d| ==> IsDigit(d[i])
    ensures Gather(n, d + [c]) == Gather(n, d) * 10 + DigitValue(c)
    decreases |d|
  {
    if d != "" {
      assert (d + [c])[1..] == d[1..] + [c];
      GatherSnoc(n * 10 + DigitValue(d[0]), d[1..], c);
    }
  }

  lemma {:induction false} GatherDecimal(n: nat)
    ensures Gather(0, Decimal(n)) == n
  {
    if n >= 10 {
      GatherDecimal(n / 10);
      GatherSnoc(0, Decimal(n / 10), Digit(n % 10));
    } else {
      assert Decimal(n)[1..] == "";
    }
  }

  lemma {:induction false} DecimalLength(n: nat, k: nat, bound: nat)
    requires n < bound && bound == Power10(k) && k > 0
    ensures |Decimal(n)| <= k
    decreases k
  {
    if n >= 10 {
      DecimalLength(n / 10, k - 1, Power10(k - 1));
    }
  }

  function Power10(k: nat): nat {
    if k == 0 then 1 else 10 * Power10(k - 1)
  }

  lemma {:induction false} ReadDigitsAt(t: string, p: nat, d: string, count: nat, n: nat)
    requires At(t, p, d) && (forall i :: 0 <= i < |d| ==> IsDigit(d[i])) && 0 < count + |d| <= 9
    requires p + |d| < |t| ==> !IsDigit(t[p + |d|])
    ensures ReadDigits(t, p, count, n) == Good(Gather(n, d), p + |d|)
    decreases |d|
  {
    if d != "" {
      AtIndex(t, p, d, 0);
      assert d == d[..1] + d[1..];
      AtSplit(t, p, d[..1], d[1..]);
      ReadDigitsAt(t, p + 1, d[1..], count + 1, n * 10 + DigitValue(d[0]));
    }
  }

  /** Numbers below a billion come back. */
  lemma ReadNumberAt(t: string, p: nat, n: nat)
    requires n < 1_000_000_000 && At(t, p, Decimal(n))
    requires p + |Decimal(n)| < |t| ==> !IsDigit(t[p + |Decimal(n)|])
    ensures ReadNumber(t, p) == Good(n, p + |Decimal(n)|)
  {
    hide Decimal, ReadDigits, Gather;
    BillionIs();
    DecimalLength(n, 9, 1_000_000_000);
    AtIndex(t, p, Decimal(n), 0);
    ReadDigitsAt(t, p, Decimal(n), 0, 0);
    GatherDecimal(n);
  }

  lemma BillionIs()
    ensures Power10(9) == 1_000_000_000
  {
    assert Power10(3) == 1000;
    assert Power10(6) == 1000_000;
  }

  lemma ReadBoolAt(t: string, p: nat, b: bool)
    requires At(t, p, FlagText(b))
    ensures ReadBool(t, p) == Good(b, p + |FlagText(b)|)
  {
    AtIndex(t, p, FlagText(b), 0);
    if !b && At(t, p, "true") {
      AtIndex(t, p, "true", 0);
    }
  }
}
