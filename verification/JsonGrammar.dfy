/**
 * Which texts the config page takes, as a grammar: an object of members in any order, with white space between the
 * tokens, escapes, hexadecimal digits of either case, keys more than once and keys the config does not have.
 */
module JsonGrammar {
  import opened Slices
  import opened Wrappers
  import opened Json
  import opened ConfigJson

  // ---- Tokens ----

  const LOWER: string := "0123456789abcdef"
  const UPPER: string := "0123456789ABCDEF"

  predicate IsHex(c: char, n: nat)
    requires n < 16
  {
    c == LOWER[n] || c == UPPER[n]
  }

  /** A hexadecimal digit has the same value in upper and in lower case. */
  lemma HexValueIs(c: char, n: nat)
    requires n < 16
    ensures HexValue(c) == n <==> IsHex(c, n)
  {
  }

  /** The letters behind a backslash, and what they stand for. */
  const LETTERS: string := "\"\\/bfnrt"
  const MEANT: string := ['"', '\\', '/', 8 as char, 12 as char, 10 as char, 13 as char, 9 as char]

  ghost predicate IsLetter(e: string, c: char) {
    |e| == 2 && e[0] == '\\' && exists i :: 0 <= i < 8 && e[1] == LETTERS[i] && c == MEANT[i]
  }

  ghost predicate IsUnicode(e: string, c: char) {
    && |e| == 6 && e[0] == '\\' && e[1] == 'u' && e[2] == '0' && e[3] == '0'
    && exists h, l :: 0 <= h < 8 && 0 <= l < 16 && IsHex(e[4], h) && IsHex(e[5], l) && c as int == 16 * h + l != 0
  }

  /** A spelling of one character of a string. */
  ghost predicate Spells(e: string, c: char) {
    (e == [c] && c >= ' ' && c != '"' && c != '\\') || IsLetter(e, c) || IsUnicode(e, c)
  }

  ghost predicate SpellsAll(e: string, s: string)
    decreases |s|
  {
    if s == "" then e == "" else exists k :: 1 <= k <= |e| && Spells(e[..k], s[0]) && SpellsAll(e[k..], s[1..])
  }

  ghost predicate IsString(x: string, s: string) {
    |x| >= 2 && x[0] == '"' && x[|x| - 1] == '"' && SpellsAll(x[1..|x| - 1], s)
  }

  ghost predicate IsNumber(x: string, n: nat) {
    1 <= |x| <= 9 && Digits(x) && Gather(0, x) == n
  }

  predicate Digits(x: string) {
    forall i :: 0 <= i < |x| ==> IsDigit(x[i])
  }

  predicate Spaces(x: string) {
    forall i :: 0 <= i < |x| ==> x[i] == ' ' || x[i] == '\t' || x[i] == '\r' || x[i] == '\n'
  }

  // ---- Characters and strings ----

  lemma Letter(c: char) returns (i: nat)
    requires c == '"' || c == '\\' || c == '/' || c == 'b' || c == 'f' || c == 'n' || c == 'r' || c == 't'
    ensures i < 8 && LETTERS[i] == c
  {
    i := if c == '"' then 0 else if c == '\\' then 1 else if c == '/' then 2 else if c == 'b' then 3
      else if c == 'f' then 4 else if c == 'n' then 5 else if c == 'r' then 6 else 7;
  }

  lemma EscapeSound(t: string, p: nat)
    requires p + 1 < |t| && t[p] == '\\' && t[p + 1] != 'u' && Escape(t, p + 1).Good?
    ensures Escape(t, p + 1).at == p + 2 && IsLetter(t[p..p + 2], Escape(t, p + 1).value)
  {
    var i := Letter(t[p + 1]);
    assert t[p..p + 2] == [t[p], t[p + 1]];
    assert MEANT[i] == Escape(t, p + 1).value;
  }

  lemma UnicodeSound(t: string, p: nat)
    requires p + 1 < |t| && t[p] == '\\' && t[p + 1] == 'u' && UnicodeEscape(t, p + 2).Good?
    ensures UnicodeEscape(t, p + 2).at == p + 6 <= |t| && IsUnicode(t[p..p + 6], UnicodeEscape(t, p + 2).value)
  {
    hide HexValue, IsHex;
    var a, b, h, l := HexValue(t[p + 2]), HexValue(t[p + 3]), HexValue(t[p + 4]), HexValue(t[p + 5]);
    var e := t[p..p + 6];
    assert e[0] == t[p] && e[1] == t[p + 1] && e[2] == t[p + 2] && e[3] == t[p + 3] && e[4] == t[p + 4]
        && e[5] == t[p + 5];
    SmallCode(a, b, h, l);
    HexValueIs(t[p + 2], 0);
    HexValueIs(t[p + 3], 0);
    HexValueIs(t[p + 4], h);
    HexValueIs(t[p + 5], l);
    ZeroDigit(t[p + 2]);
    ZeroDigit(t[p + 3]);
  }

  lemma SmallCode(a: nat, b: nat, h: nat, l: nat)
    requires l < 16 && ((a * 16 + b) * 16 + h) * 16 + l < 0x80
    ensures a == 0 && b == 0 && h < 8
  {
  }

  lemma ZeroDigit(c: char)
    ensures IsHex(c, 0) <==> c == '0'
  {
  }

  lemma ReadCharSound(t: string, p: nat)
    requires p < |t| && t[p] != '"' && ReadChar(t, p).Good?
    ensures Spells(t[p..ReadChar(t, p).at], ReadChar(t, p).value)
  {
    hide UnicodeEscape, IsUnicode, IsLetter;
    if t[p] == '\\' {
      if t[p + 1] == 'u' {
        UnicodeSound(t, p);
      } else {
        EscapeSound(t, p);
      }
    } else {
      assert t[p..p + 1] == [t[p]];
    }
  }

  lemma SpellsSome(e: string, c: char)
    requires Spells(e, c)
    ensures e != "" && e[0] != '"' && c != '\0'
  {
    hide IsHex;
    if IsLetter(e, c) {
      var i :| 0 <= i < 8 && e[1] == LETTERS[i] && c == MEANT[i];
    }
  }

  lemma LetterRead(t: string, p: nat, e: string, c: char)
    requires At(t, p, e) && IsLetter(e, c)
    ensures p + 2 <= |t| && t[p] == '\\' && Escape(t, p + 1) == Good(c, p + 2)
  {
    AtIndex(t, p, e, 0);
    AtIndex(t, p, e, 1);
    var i :| 0 <= i < 8 && e[1] == LETTERS[i] && c == MEANT[i];
  }

  lemma UnicodeRead(t: string, p: nat, e: string, c: char)
    requires At(t, p, e) && IsUnicode(e, c)
    ensures p + 6 <= |t| && t[p] == '\\' && t[p + 1] == 'u' && UnicodeEscape(t, p + 2) == Good(c, p + 6)
  {
    hide HexValue, IsHex;
    AtIndex(t, p, e, 0); AtIndex(t, p, e, 1); AtIndex(t, p, e, 2);
    AtIndex(t, p, e, 3); AtIndex(t, p, e, 4); AtIndex(t, p, e, 5);
    var h: nat, l: nat :| h < 8 && l < 16 && IsHex(e[4], h) && IsHex(e[5], l) && c as int == 16 * h + l != 0;
    ZeroDigit('0');
    HexValueIs('0', 0);
    HexValueIs(e[4], h);
    HexValueIs(e[5], l);
  }

  lemma SpelledRead(t: string, p: nat, e: string, c: char)
    requires At(t, p, e) && Spells(e, c)
    ensures p < |t| && t[p] != '"' && ReadChar(t, p) == Good(c, p + |e|)
  {
    hide UnicodeEscape, IsLetter, IsUnicode;
    SpellsSome(e, c);
    AtIndex(t, p, e, 0);
    if IsLetter(e, c) {
      LetterSize(e, c);
      LetterRead(t, p, e, c);
    } else if IsUnicode(e, c) {
      LetterSize(e, c);
      UnicodeRead(t, p, e, c);
    }
  }

  lemma LetterSize(e: string, c: char)
    ensures IsLetter(e, c) ==> |e| == 2
    ensures IsUnicode(e, c) ==> |e| == 6
  {
  }

  /** What was read between the quotes is a spelling of the string. */
  lemma {:induction false} ReadCharsSound(t: string, p: nat, before: string, limit: Option<nat>)
    requires p <= |t| && ReadChars(t, p, before, limit).Good?
    ensures
      var r := ReadChars(t, p, before, limit);
      && p < r.at && t[r.at - 1] == '"' && |before| <= |r.value|
      && SpellsAll(t[p..r.at - 1], r.value[|before|..])
      && (limit.Some? ==> r.value == before || |r.value| < limit.value)
    decreases |t| - p
  {
    hide ReadChar, Spells;
    var r := ReadChars(t, p, before, limit);
    if t[p] == '"' {
      assert t[p..p] == "" && before[|before|..] == "";
    } else {
      var x := ReadChar(t, p);
      ReadCharSound(t, p);
      var more := before + [x.value];
      ReadCharsSound(t, x.at, more, limit);
      var e, s := t[p..r.at - 1], r.value[|before|..];
      Cut(t, p, x.at, r.at - 1);
      assert s[0] == x.value && s[1..] == r.value[|more|..] by {
        assert more <= r.value;
        assert r.value[|before|] == more[|before|];
      }
    }
  }

  /** A piece in two. */
  lemma Cut(t: string, p: nat, m: nat, q: nat)
    requires p <= m <= q <= |t|
    ensures t[p..q][..m - p] == t[p..m] && t[p..q][m - p..] == t[m..q] && t[p..q] == t[p..m] + t[m..q]
  {
  }

  lemma {:induction false} SpelledAllRead(t: string, p: nat, e: string, s: string, before: string, limit: Option<nat>)
    requires SpellsAll(e, s) && At(t, p, e + "\"")
    requires limit.Some? ==> s == "" || |before| + |s| < limit.value
    ensures p + |e| + 1 <= |t| && ReadChars(t, p, before, limit) == Good(before + s, p + |e| + 1)
    decreases |s|
  {
    hide ReadChar, Spells, At;
    AtFits(t, p, e + "\"");
    if s == "" {
      assert e + "\"" == "\"";
      AtIndex(t, p, "\"", 0);
      assert before + s == before;
    } else {
      var k :| 1 <= k <= |e| && Spells(e[..k], s[0]) && SpellsAll(e[k..], s[1..]);
      assert e + "\"" == e[..k] + (e[k..] + "\"");
      AtSplit(t, p, e[..k], e[k..] + "\"");
      SpelledRead(t, p, e[..k], s[0]);
      SpelledAllRead(t, p + k, e[k..], s[1..], before + [s[0]], limit);
      assert (before + [s[0]]) + s[1..] == before + s;
    }
  }

  // ---- Tokens behind white space ----

  lemma {:induction false} SkipOver(t: string, p: nat, x: string)
    requires At(t, p, x) && Spaces(x) && (p + |x| < |t| ==> !IsSpace(t[p + |x|]))
    ensures p <= |t| && SkipSpace(t, p) == p + |x|
    decreases |x|
  {
    if x != "" {
      AtIndex(t, p, x, 0);
      assert x == x[..1] + x[1..];
      AtSplit(t, p, x[..1], x[1..]);
      SkipOver(t, p + 1, x[1..]);
    }
  }

  lemma {:induction false} SkipSound(t: string, p: nat)
    requires p <= |t|
    ensures Spaces(t[p..SkipSpace(t, p)])
    decreases |t| - p
  {
    if p < |t| && IsSpace(t[p]) {
      SkipSound(t, p + 1);
      Cut(t, p, p + 1, SkipSpace(t, p));
    }
  }

  /** A token behind white space: the reader stands at its first character. */
  lemma Token(t: string, p: nat, gap: string, x: string)
    requires At(t, p, gap + x) && Spaces(gap) && x != "" && !IsSpace(x[0])
    ensures p + |gap| + |x| <= |t| && At(t, p + |gap|, x) && SkipSpace(t, p) == p + |gap| && t[p + |gap|] == x[0]
  {
    hide At, IsSpace;
    AtSplit(t, p, gap, x);
    AtIndex(t, p + |gap|, x, 0);
    AtFits(t, p + |gap|, x);
    SkipOver(t, p, gap);
  }

  lemma Mark(t: string, p: nat, gap: string, c: char, other: char)
    requires At(t, p, gap + [c]) && Spaces(gap) && !IsSpace(c)
    ensures p <= |t| && Consume(t, p, c) == Good(c, p + |gap| + 1)
    ensures other != c ==> Consume(t, p, other) == Bad
  {
    Token(t, p, gap, [c]);
  }

  lemma MarkSound(t: string, p: nat, c: char) returns (gap: string)
    requires p <= |t| && Consume(t, p, c).Good?
    ensures Spaces(gap) && t[p..Consume(t, p, c).at] == gap + [c]
  {
    SkipSound(t, p);
    var q := SkipSpace(t, p);
    gap := t[p..q];
    Cut(t, p, q, q + 1);
  }

  lemma StringRead(t: string, p: nat, gap: string, x: string, s: string, limit: Option<nat>)
    requires At(t, p, gap + x) && Spaces(gap) && IsString(x, s)
    requires limit.Some? ==> |s| < limit.value
    ensures p <= |t| && ReadString(t, p, limit) == Good(s, p + |gap| + |x|)
  {
    hide At, SpellsAll, ReadChars;
    Token(t, p, gap, x);
    var e := x[1..|x| - 1];
    assert x == "\"" + (e + "\"");
    AtSplit(t, p + |gap|, "\"", e + "\"");
    SpelledAllRead(t, p + |gap| + 1, e, s, "", limit);
    assert "" + s == s;
  }

  lemma StringSound(t: string, p: nat, limit: Option<nat>) returns (gap: string, x: string)
    requires p <= |t| && ReadString(t, p, limit).Good? && (limit.Some? ==> limit.value > 0)
    ensures
      var r := ReadString(t, p, limit);
      && Spaces(gap) && IsString(x, r.value) && t[p..r.at] == gap + x && (limit.Some? ==> |r.value| < limit.value)
  {
    hide ReadChars, IsString, Spaces;
    var r, q := ReadString(t, p, limit), SkipSpace(t, p);
    SkipSound(t, p);
    QuotedSound(t, q, limit);
    gap, x := t[p..q], t[q..r.at];
    Cut(t, p, q, r.at);
  }

  lemma QuotedSound(t: string, q: nat, limit: Option<nat>)
    requires q < |t| && t[q] == '"' && ReadChars(t, q + 1, "", limit).Good? && (limit.Some? ==> limit.value > 0)
    ensures
      var r := ReadChars(t, q + 1, "", limit);
      q + 2 <= r.at && IsString(t[q..r.at], r.value) && (limit.Some? ==> |r.value| < limit.value)
  {
    hide ReadChars, SpellsAll, IsString;
    var r := ReadChars(t, q + 1, "", limit);
    ReadCharsSound(t, q + 1, "", limit);
    Inside(t, q, r.at);
    assert r.value[0..] == r.value;
    MakeString(t[q..r.at], t[q + 1..r.at - 1], r.value);
  }

  lemma Inside(t: string, q: nat, e: nat)
    requires q + 2 <= e <= |t|
    ensures var x := t[q..e]; x[1..|x| - 1] == t[q + 1..e - 1] && x[0] == t[q] && x[|x| - 1] == t[e - 1]
  {
    Subrange(t, q, e - q, 1, e - q - 1);
  }

  lemma MakeString(x: string, e: string, s: string)
    requires |x| >= 2 && x[0] == '"' && x[|x| - 1] == '"' && x[1..|x| - 1] == e && SpellsAll(e, s)
    ensures IsString(x, s)
  {
    hide SpellsAll;
  }

  lemma NumberRead(t: string, p: nat, gap: string, x: string, n: nat)
    requires At(t, p, gap + x) && Spaces(gap) && IsNumber(x, n)
    requires p + |gap| + |x| < |t| ==> !IsDigit(t[p + |gap| + |x|])
    ensures p <= |t| && ReadNumber(t, p) == Good(n, p + |gap| + |x|)
  {
    hide At, ReadDigits, Gather;
    Token(t, p, gap, x);
    ReadDigitsAt(t, p + |gap|, x, 0, 0);
  }

  lemma {:induction false} DigitsSound(t: string, p: nat, count: nat, n: nat)
    requires p <= |t| && count <= 9 && ReadDigits(t, p, count, n).Good?
    ensures
      var r := ReadDigits(t, p, count, n);
      var x := t[p..r.at];
      1 <= count + |x| <= 9 && Digits(x) && Gather(n, x) == r.value
    decreases |t| - p
  {
    if p < |t| && IsDigit(t[p]) {
      DigitsSound(t, p + 1, count + 1, n * 10 + DigitValue(t[p]));
      var q := ReadDigits(t, p, count, n).at;
      Cut(t, p, p + 1, q);
      assert t[p..q][0] == t[p] && t[p..q][1..] == t[p + 1..q];
    } else {
      assert t[p..p] == "";
    }
  }

  lemma NumberSound(t: string, p: nat) returns (gap: string, x: string)
    requires p <= |t| && ReadNumber(t, p).Good?
    ensures var r := ReadNumber(t, p); Spaces(gap) && IsNumber(x, r.value) && t[p..r.at] == gap + x
  {
    hide ReadDigits, Gather, Digits, Spaces;
    var r, q := ReadNumber(t, p), SkipSpace(t, p);
    SkipSound(t, p);
    DigitsSound(t, q, 0, 0);
    gap, x := t[p..q], t[q..r.at];
    Cut(t, p, q, r.at);
  }

  lemma WordRead(t: string, p: nat, gap: string, x: string)
    requires At(t, p, gap + x) && Spaces(gap) && x in ["true", "false", "null"]
    ensures p <= |t| && ReadWord(t, p, x) == Good(x, p + |gap| + |x|)
    ensures forall w :: w in ["true", "false", "null"] && w != x ==> ReadWord(t, p, w) == Bad
    ensures ReadNumber(t, p) == Bad && t[p + |gap|] == x[0]
  {
    Token(t, p, gap, x);
    forall w | w in ["true", "false", "null"] && w != x ensures ReadWord(t, p, w) == Bad {
      if At(t, p + |gap|, w) {
        AtIndex(t, p + |gap|, w, 0);
      }
    }
  }

  lemma WordSound(t: string, p: nat, word: string) returns (gap: string)
    requires p <= |t| && ReadWord(t, p, word).Good?
    ensures Spaces(gap) && t[p..ReadWord(t, p, word).at] == gap + word
  {
    SkipSound(t, p);
    var q := SkipSpace(t, p);
    gap := t[p..q];
    Cut(t, p, q, q + |word|);
  }

  lemma BoolRead(t: string, p: nat, gap: string, b: bool)
    requires At(t, p, gap + FlagText(b)) && Spaces(gap)
    ensures p <= |t| && ReadBool(t, p) == Good(b, p + |gap| + |FlagText(b)|)
  {
    hide ReadWord;
    WordRead(t, p, gap, FlagText(b));
  }

  lemma BoolSound(t: string, p: nat) returns (gap: string)
    requires p <= |t| && ReadBool(t, p).Good?
    ensures var r := ReadBool(t, p); Spaces(gap) && t[p..r.at] == gap + FlagText(r.value)
  {
    hide ReadWord;
    gap := WordSound(t, p, FlagText(ReadBool(t, p).value));
  }

  // ---- Values ----

  predicate MacByte(s: string, i: nat, n: nat)
    requires |s| == 17 && i < 6 && n < 256
  {
    IsHex(s[i * 3], n / 16) && IsHex(s[i * 3 + 1], n % 16) && (i < 5 ==> s[i * 3 + 2] == ':')
  }

  /** Six pairs of digits with colons between them. */
  predicate IsMac(s: string, m: seq<nat>) {
    |s| == 17 && |m| == 6 && forall i :: 0 <= i < 6 ==> m[i] < 256 && MacByte(s, i, m[i])
  }

  lemma {:induction false} MacRead(s: string, m: seq<nat>, i: nat)
    requires IsMac(s, m) && i <= 6
    ensures ReadMacBytes(s, i) == Some(m[i..])
    decreases 6 - i
  {
    hide IsHex, HexValue;
    if i < 6 {
      MacRead(s, m, i + 1);
      assert MacByte(s, i, m[i]);
      HexValueIs(s[i * 3], m[i] / 16);
      HexValueIs(s[i * 3 + 1], m[i] % 16);
      assert m[i..] == [m[i]] + m[i + 1..];
    } else {
      assert m[6..] == [];
    }
  }

  lemma {:induction false} MacSound(s: string, i: nat, k: nat)
    requires |s| == 17 && i <= k < 6 && ReadMacBytes(s, i).Some?
    ensures MacByte(s, k, ReadMacBytes(s, i).value[k - i])
    decreases 6 - i
  {
    hide MacByte, ReadMacBytes, HexValue;
    MacNext(s, i);
    if i < k {
      MacSound(s, i + 1, k);
    } else {
      PairSound(s, i);
    }
  }

  lemma MacNext(s: string, i: nat)
    requires |s| == 17 && i < 6 && ReadMacBytes(s, i).Some?
    ensures
      var high, low, rest := HexValue(s[i * 3]), HexValue(s[i * 3 + 1]), ReadMacBytes(s, i + 1);
      && high >= 0 && low >= 0 && (i < 5 ==> s[i * 3 + 2] == ':') && rest.Some?
      && ReadMacBytes(s, i) == Some([high * 16 + low] + rest.value)
  {
    hide HexValue;
  }

  lemma PairSound(s: string, i: nat)
    requires |s| == 17 && i < 6 && HexValue(s[i * 3]) >= 0 && HexValue(s[i * 3 + 1]) >= 0
    requires i < 5 ==> s[i * 3 + 2] == ':'
    ensures MacByte(s, i, HexValue(s[i * 3]) * 16 + HexValue(s[i * 3 + 1]))
  {
    hide IsHex, HexValue;
    var high, low := HexValue(s[i * 3]), HexValue(s[i * 3 + 1]);
    HexValueIs(s[i * 3], high);
    HexValueIs(s[i * 3 + 1], low);
    assert (high * 16 + low) / 16 == high && (high * 16 + low) % 16 == low;
  }

  ghost predicate IsMacString(x: string, m: seq<nat>) {
    exists s :: IsString(x, s) && IsMac(s, m)
  }

  /** A value of one of the config's fields. */
  ghost predicate IsValue(x: string, f: Field) {
    match f
    case Mac(m) => IsMacString(x, m)
    case ApSsid(s) => IsString(x, s) && |s| <= 32
    case ApChannel(n) => IsNumber(x, n) && n <= 255
    case ApEnabled(b) => x == FlagText(b)
    case StaSsid(s) => IsString(x, s) && |s| <= 32
    case StaPassword(s) => IsString(x, s) && |s| <= 63
    case StaEnabled(b) => x == FlagText(b)
    case LedEnabled(b) => x == FlagText(b)
    case TelnetEnabled(b) => x == FlagText(b)
  }

  /** A value of any other key. */
  ghost predicate IsOther(x: string) {
    (exists s :: IsString(x, s)) || (exists n: nat :: IsNumber(x, n)) || x in ["true", "false", "null"]
  }

  lemma {:induction false} SpelledNulFree(e: string, s: string)
    requires SpellsAll(e, s)
    ensures NulFree(s)
    decreases |s|
  {
    hide Spells;
    if s != "" {
      var k :| 1 <= k <= |e| && Spells(e[..k], s[0]) && SpellsAll(e[k..], s[1..]);
      SpellsSome(e[..k], s[0]);
      SpelledNulFree(e[k..], s[1..]);
      assert s == [s[0]] + s[1..];
    }
  }

  lemma ValueFits(x: string, f: Field)
    requires IsValue(x, f)
    ensures FieldFits(f) && x != "" && !IsSpace(x[0])
  {
    hide SpellsAll, NulFree, Gather;
    match f
    case ApSsid(s) => SpelledNulFree(x[1..|x| - 1], s);
    case StaSsid(s) => SpelledNulFree(x[1..|x| - 1], s);
    case StaPassword(s) => SpelledNulFree(x[1..|x| - 1], s);
    case _ =>
  }

  lemma MacStringRead(t: string, p: nat, gap: string, x: string, m: seq<nat>)
    requires At(t, p, gap + x) && Spaces(gap) && IsMacString(x, m)
    ensures p <= |t| && ReadMac(t, p) == Good(m, p + |gap| + |x|)
  {
    hide At, Spaces, IsString, ReadString, ReadMacBytes;
    var s :| IsString(x, s) && IsMac(s, m);
    StringRead(t, p, gap, x, s, Some(MAC_SIZE));
    MacRead(s, m, 0);
    assert m[0..] == m;
  }

  lemma MacStringSound(t: string, p: nat) returns (gap: string, x: string)
    requires p <= |t| && ReadMac(t, p).Good?
    ensures var r := ReadMac(t, p); Spaces(gap) && IsMacString(x, r.value) && t[p..r.at] == gap + x
  {
    hide Spaces, IsString, ReadString, ReadMacBytes, MacByte;
    gap, x := StringSound(t, p, Some(MAC_SIZE));
    var s, m := ReadString(t, p, Some(MAC_SIZE)).value, ReadMac(t, p).value;
    forall k | 0 <= k < 6 ensures m[k] < 256 && MacByte(s, k, m[k]) {
      MacSound(s, 0, k);
    }
    assert IsMac(s, m);
  }

  predicate IsName(key: string) {
    || key == "mac" || key == "ap_ssid" || key == "ap_channel" || key == "ap_enabled" || key == "sta_ssid"
    || key == "sta_password" || key == "sta_enabled" || key == "led_enabled" || key == "telnet_enabled"
  }

  lemma KnownRead(t: string, p: nat, gap: string, x: string, f: Field, c: Config)
    requires At(t, p, gap + x) && Spaces(gap) && IsValue(x, f) && Fits(c)
    requires p + |gap| + |x| < |t| ==> !IsDigit(t[p + |gap| + |x|])
    ensures p <= |t| && ReadField(t, p, Name(f), c) == Good(Set(c, f), p + |gap| + |x|)
  {
    hide At, Spaces, IsString, IsNumber, IsMacString, ReadMac, ReadString, ReadNumber, ReadBool, SkipValue, FlagText;
    hide Fits, Set;
    match f
    case Mac(m) => MacStringRead(t, p, gap, x, m);
    case ApSsid(s) => StringRead(t, p, gap, x, s, Some(SSID_MAX + 1));
    case ApChannel(n) => NumberRead(t, p, gap, x, n);
    case ApEnabled(b) => BoolRead(t, p, gap, b);
    case StaSsid(s) => StringRead(t, p, gap, x, s, Some(SSID_MAX + 1));
    case StaPassword(s) => StringRead(t, p, gap, x, s, Some(PASSWORD_MAX + 1));
    case StaEnabled(b) => BoolRead(t, p, gap, b);
    case LedEnabled(b) => BoolRead(t, p, gap, b);
    case TelnetEnabled(b) => BoolRead(t, p, gap, b);
  }

  lemma OtherRead(t: string, p: nat, gap: string, x: string)
    requires At(t, p, gap + x) && Spaces(gap) && IsOther(x)
    requires p + |gap| + |x| < |t| ==> !IsDigit(t[p + |gap| + |x|])
    ensures p <= |t| && SkipValue(t, p) == Good((), p + |gap| + |x|)
  {
    hide At, Spaces, IsString, IsNumber, ReadString, ReadNumber, ReadWord;
    OtherStarts(x);
    Token(t, p, gap, x);
    var q := p + |gap|;
    NoSpaces();
    assert "" + x == x;
    if s :| IsString(x, s) {
      StringStarts(x, s);
      StringRead(t, q, "", x, s, None);
    } else if n: nat :| IsNumber(x, n) {
      NumberStarts(x, n);
      NumberRead(t, q, "", x, n);
    } else {
      WordRead(t, q, "", x);
    }
  }

  lemma NoSpaces()
    ensures Spaces("")
  {
  }

  lemma StringStarts(x: string, s: string)
    requires IsString(x, s)
    ensures x != "" && x[0] == '"'
  {
  }

  lemma NumberStarts(x: string, n: nat)
    requires IsNumber(x, n)
    ensures x != "" && IsDigit(x[0])
  {
  }

  lemma OtherStarts(x: string)
    requires IsOther(x)
    ensures x != "" && !IsSpace(x[0])
  {
    hide IsString, IsNumber;
    if s :| IsString(x, s) {
      StringStarts(x, s);
    } else if n: nat :| IsNumber(x, n) {
      NumberStarts(x, n);
    }
  }

  lemma OtherSound(t: string, p: nat) returns (gap: string, x: string)
    requires p <= |t| && SkipValue(t, p).Good?
    ensures Spaces(gap) && IsOther(x) && t[p..SkipValue(t, p).at] == gap + x
  {
    hide Spaces, IsString, IsNumber, ReadString, ReadNumber, ReadWord, SkipSpace;
    SkipSound(t, p);
    var q, e := SkipSpace(t, p), SkipValue(t, p).at;
    var none;
    if q < |t| && t[q] == '"' {
      none, x := StringSound(t, q, None);
    } else if ReadNumber(t, q).Good? {
      none, x := NumberSound(t, q);
    } else if ReadBool(t, q).Good? {
      none := BoolSound(t, q);
      x := FlagText(ReadBool(t, q).value);
    } else {
      none := WordSound(t, q, "null");
      x := "null";
    }
    gap := t[p..q] + none;
    TwoGaps(t[p..q], none);
    Cut(t, p, q, e);
    assert t[p..q] + (none + x) == gap + x;
  }

  lemma TwoGaps(a: string, b: string)
    requires Spaces(a) && Spaces(b)
    ensures Spaces(a + b)
  {
  }

  // ---- Members ----

  datatype Item = Known(f: Field) | Unknown(key: string)

  function KeyOf(x: Item): string {
    match x
    case Known(f) => Name(f)
    case Unknown(key) => key
  }

  ghost predicate IsItem(x: Item, value: string) {
    match x
    case Known(f) => IsValue(value, f)
    case Unknown(key) => !IsName(key) && IsOther(value)
  }

  /** What a member does to the config. */
  function Applied(c: Config, x: Item): Config {
    match x
    case Known(f) => Set(c, f)
    case Unknown(_) => c
  }

  /** A member as it is written: its tokens and the white space around them. */
  datatype Entry = Entry(before: string, key: string, gap: string, gap2: string, value: string, item: Item)

  ghost predicate IsEntry(m: Entry) {
    && Spaces(m.before) && Spaces(m.gap) && Spaces(m.gap2)
    && IsString(m.key, KeyOf(m.item)) && |KeyOf(m.item)| < 24 && IsItem(m.item, m.value)
  }

  function EntryText(m: Entry): string {
    (m.before + m.key) + ((m.gap + ":") + (m.gap2 + m.value))
  }

  lemma FieldRead(t: string, p: nat, gap: string, x: string, item: Item, c: Config)
    requires At(t, p, gap + x) && Spaces(gap) && IsItem(item, x) && Fits(c)
    requires p + |gap| + |x| < |t| ==> !IsDigit(t[p + |gap| + |x|])
    ensures p <= |t| && ReadField(t, p, KeyOf(item), c) == Good(Applied(c, item), p + |gap| + |x|)
  {
    hide At, Spaces, IsValue, IsOther, SkipValue, ReadMac, ReadString, ReadNumber, ReadBool, Fits, Set;
    match item
    case Known(f) => KnownRead(t, p, gap, x, f, c);
    case Unknown(key) => OtherRead(t, p, gap, x);
  }

  lemma FieldSound(t: string, p: nat, key: string, c: Config) returns (gap: string, x: string, item: Item)
    requires p <= |t| && Fits(c) && ReadField(t, p, key, c).Good?
    ensures
      var r := ReadField(t, p, key, c);
      && Spaces(gap) && t[p..r.at] == gap + x && KeyOf(item) == key && IsItem(item, x)
      && r.value == Applied(c, item)
  {
    hide Spaces, IsString, IsNumber, IsMacString, IsOther, SkipValue, ReadMac, ReadString, ReadNumber, ReadBool;
    hide Fits, Set, FlagText;
    if key == "mac" {
      gap, x := MacStringSound(t, p);
      item := Known(Mac(ReadMac(t, p).value));
    } else if key == "ap_ssid" {
      gap, x := StringSound(t, p, Some(SSID_MAX + 1));
      item := Known(ApSsid(ReadString(t, p, Some(SSID_MAX + 1)).value));
    } else if key == "ap_channel" {
      gap, x := NumberSound(t, p);
      item := Known(ApChannel(ReadNumber(t, p).value));
    } else if key == "sta_ssid" {
      gap, x := StringSound(t, p, Some(SSID_MAX + 1));
      item := Known(StaSsid(ReadString(t, p, Some(SSID_MAX + 1)).value));
    } else if key == "sta_password" {
      gap, x := StringSound(t, p, Some(PASSWORD_MAX + 1));
      item := Known(StaPassword(ReadString(t, p, Some(PASSWORD_MAX + 1)).value));
    } else if key == "ap_enabled" || key == "sta_enabled" || key == "led_enabled" || key == "telnet_enabled" {
      gap := BoolSound(t, p);
      var b := ReadBool(t, p).value;
      x := FlagText(b);
      item := Known(if key == "ap_enabled" then ApEnabled(b) else if key == "sta_enabled" then StaEnabled(b)
                    else if key == "led_enabled" then LedEnabled(b) else TelnetEnabled(b));
    } else {
      gap, x := OtherSound(t, p);
      item := Unknown(key);
    }
  }

  /** A written member is read, whatever white space, spelling and key it has. */
  lemma EntryRead(t: string, p: nat, m: Entry, c: Config)
    requires IsEntry(m) && Fits(c) && At(t, p, EntryText(m))
    requires p + |EntryText(m)| < |t| ==> !IsDigit(t[p + |EntryText(m)|])
    ensures p <= |t| && ReadMember(t, p, c) == Good(Applied(c, m.item), p + |EntryText(m)|)
  {
    hide At, Spaces, IsString, IsItem, ReadString, ReadField, Consume, Fits, Applied, KeyOf;
    var k, a, b := m.before + m.key, m.gap + ":", m.gap2 + m.value;
    AtFits(t, p, EntryText(m));
    AtSplit(t, p, k, a + b);
    AtSplit(t, p + |k|, a, b);
    StringRead(t, p, m.before, m.key, KeyOf(m.item), Some(KEY_SIZE));
    Mark(t, p + |k|, m.gap, ':', ':');
    FieldRead(t, p + |k| + |a|, m.gap2, m.value, m.item, c);
  }

  lemma EntrySound(t: string, p: nat, c: Config) returns (m: Entry)
    requires p <= |t| && Fits(c) && ReadMember(t, p, c).Good?
    ensures var r := ReadMember(t, p, c); IsEntry(m) && t[p..r.at] == EntryText(m) && r.value == Applied(c, m.item)
  {
    hide Spaces, IsString, IsItem, ReadString, ReadField, Consume, Fits, Applied;
    var r, k := ReadMember(t, p, c), ReadString(t, p, Some(KEY_SIZE));
    var before, key := StringSound(t, p, Some(KEY_SIZE));
    var v := Consume(t, k.at, ':').at;
    var gap := MarkSound(t, k.at, ':');
    var gap2, value, item := FieldSound(t, v, k.value, c);
    m := Entry(before, key, gap, gap2, value, item);
    Cut(t, p, k.at, r.at);
    Cut(t, k.at, v, r.at);
  }

  // ---- The object ----

  ghost predicate AllEntries(ms: seq<Entry>) {
    forall i :: 0 <= i < |ms| ==> IsEntry(ms[i])
  }

  /** Members with commas between them, and white space before the commas. */
  function ListText(ms: seq<Entry>, gaps: seq<string>): string
    requires ms != [] && |gaps| == |ms| - 1
  {
    if |ms| == 1 then EntryText(ms[0])
    else EntryText(ms[0]) + ((gaps[0] + ",") + ListText(ms[1..], gaps[1..]))
  }

  /** All members, one after the other: of those with the same key the last one counts. */
  function AppliedAll(c: Config, ms: seq<Entry>): Config
    decreases |ms|
  {
    if ms == [] then c else AppliedAll(Applied(c, ms[0].item), ms[1..])
  }

  ghost predicate AllSpaces(gaps: seq<string>) {
    forall i :: 0 <= i < |gaps| ==> Spaces(gaps[i])
  }

  lemma AppliedFits(c: Config, m: Entry)
    requires Fits(c) && IsEntry(m)
    ensures Fits(Applied(c, m.item))
  {
    hide IsValue, Fits, FieldFits, Spaces, IsString, Set;
    match m.item
    case Known(f) =>
      ValueFits(m.value, f);
      SetFits(c, f);
    case _ =>
  }

  /** White space in front of a mark does not begin with a digit. */
  lemma NoDigit(t: string, p: nat, gap: string, c: char)
    requires At(t, p, gap + [c]) && Spaces(gap) && !IsDigit(c)
    ensures p < |t| && !IsDigit(t[p])
  {
    AtIndex(t, p, gap + [c], 0);
  }

  /** A list that a brace follows. */
  lemma {:induction false} ListRead(t: string, p: nat, ms: seq<Entry>, gaps: seq<string>, last: string, c: Config)
    requires ms != [] && |gaps| == |ms| - 1 && AllEntries(ms) && AllSpaces(gaps) && Spaces(last) && Fits(c)
    requires At(t, p, ListText(ms, gaps) + (last + "}"))
    ensures p <= |t| && ReadMembers(t, p, c) == Good(AppliedAll(c, ms), p + |ListText(ms, gaps)|)
    decreases |ms|
  {
    hide At, Spaces, IsEntry, EntryText, ReadMember, Consume, Fits, Applied;
    var m, x, end := ms[0], EntryText(ms[0]), last + "}";
    AppliedFits(c, m);
    AtFits(t, p, ListText(ms, gaps) + end);
    if |ms| == 1 {
      AtSplit(t, p, x, end);
      NoDigit(t, p + |x|, last, '}');
      EntryRead(t, p, m, c);
      Mark(t, p + |x|, last, '}', ',');
      assert ms[1..] == [];
      assert AppliedAll(Applied(c, m.item), []) == Applied(c, m.item);
    } else {
      var comma, rest := gaps[0] + ",", ListText(ms[1..], gaps[1..]);
      Regroup(x, comma, rest, end);
      AtSplit(t, p, x, comma + (rest + end));
      AtSplit(t, p + |x|, comma, rest + end);
      NoDigit(t, p + |x|, gaps[0], ',');
      EntryRead(t, p, m, c);
      Mark(t, p + |x|, gaps[0], ',', ',');
      ListRead(t, p + |x| + |comma|, ms[1..], gaps[1..], last, Applied(c, m.item));
    }
  }

  lemma Regroup(a: string, b: string, c: string, d: string)
    ensures (a + (b + c)) + d == a + (b + (c + d))
  {
  }

  lemma {:induction false} ListSound(t: string, p: nat, c: Config) returns (ms: seq<Entry>, gaps: seq<string>)
    requires p <= |t| && Fits(c) && ReadMembers(t, p, c).Good?
    ensures ms != [] && |gaps| == |ms| - 1 && AllEntries(ms) && AllSpaces(gaps)
    ensures var r := ReadMembers(t, p, c); t[p..r.at] == ListText(ms, gaps) && r.value == AppliedAll(c, ms)
    decreases |t| - p
  {
    hide Spaces, IsEntry, EntryText, ReadMember, Consume, Fits, Applied;
    var m := EntrySound(t, p, c);
    AppliedFits(c, m);
    var next, r := ReadMember(t, p, c), ReadMembers(t, p, c);
    ms, gaps := [m], [];
    if Consume(t, next.at, ',').Good? {
      var more := Consume(t, next.at, ',').at;
      var gap := MarkSound(t, next.at, ',');
      var rest, others := ListSound(t, more, next.value);
      ms, gaps := [m] + rest, [gap] + others;
      assert ms[1..] == rest && gaps[1..] == others;
      Cut(t, p, next.at, r.at);
      Cut(t, next.at, more, r.at);
    } else {
      assert [m][1..] == [];
      assert AppliedAll(next.value, []) == next.value;
    }
  }

  /** The text of an object, white space around it included. */
  ghost predicate IsObject(t: string, open: string, ms: seq<Entry>, gaps: seq<string>, last: string, end: string) {
    && Spaces(open) && Spaces(last) && Spaces(end) && AllEntries(ms) && AllSpaces(gaps)
    && if ms == [] then t == (open + "{") + ((last + "}") + end)
       else |gaps| == |ms| - 1 && t == (open + "{") + (ListText(ms, gaps) + ((last + "}") + end))
  }

  /** What is left behind the last brace is white space exactly when the reader gets to the end. */
  lemma EndRead(t: string, p: nat)
    requires p <= |t|
    ensures SkipSpace(t, p) == |t| <==> Spaces(t[p..])
  {
    SkipSound(t, p);
    assert t[p..|t|] == t[p..];
    if Spaces(t[p..]) {
      SkipOver(t, p, t[p..]);
    }
  }

  lemma EmptyRead(t: string, c: Config, open: string, last: string, end: string)
    requires Fits(c) && IsObject(t, open, [], [], last, end)
    ensures ReadObject(t, c) == Good(c, |t| - |end|) && end <= t[|t| - |end|..]
  {
    hide At, Spaces, IsEntry, ReadMembers, Consume, Fits, ListText;
    var head, tail := open + "{", last + "}";
    WholeText(t);
    AtSplit(t, 0, head, tail + end);
    AtSplit(t, |head|, tail, end);
    Mark(t, 0, open, '{', '{');
    Mark(t, |head|, last, '}', '}');
  }

  /** Where the pieces of the object stand. */
  lemma Standing(t: string, head: string, list: string, tail: string, end: string)
    requires t == head + (list + (tail + end))
    ensures At(t, 0, head) && At(t, |head|, list) && At(t, |head|, list + tail) && At(t, |head| + |list|, tail)
    ensures |t| == |head| + |list| + |tail| + |end| && end <= t[|t| - |end|..]
  {
    hide At;
    WholeText(t);
    AtSplit(t, 0, head, list + (tail + end));
    AtSplit(t, |head|, list, tail + end);
    AtSplit(t, |head| + |list|, tail, end);
    assert list + (tail + end) == (list + tail) + end;
    AtSplit(t, |head|, list + tail, end);
  }

  lemma ObjectRead(t: string, c: Config, open: string, ms: seq<Entry>, gaps: seq<string>, last: string, end: string)
    requires Fits(c) && IsObject(t, open, ms, gaps, last, end)
    ensures ReadObject(t, c) == Good(AppliedAll(c, ms), |t| - |end|) && end <= t[|t| - |end|..]
  {
    hide At, Spaces, IsEntry, EntryText, ReadMembers, Consume, Fits, AppliedAll, ListText;
    NothingApplied(c);
    if ms == [] {
      EmptyRead(t, c, open, last, end);
    } else {
      var head, tail := open + "{", last + "}";
      var list := ListText(ms, gaps);
      Standing(t, head, list, tail, end);
      Mark(t, 0, open, '{', '{');
      ListStarts(t, |head|, ms, gaps);
      ListRead(t, |head|, ms, gaps, last, c);
      Mark(t, |head| + |list|, last, '}', '}');
    }
  }

  lemma WholeText(t: string)
    ensures At(t, 0, t)
  {
    assert t[0..|t|] == t;
  }

  lemma NothingApplied(c: Config)
    ensures AppliedAll(c, []) == c
  {
  }

  /** A list does not begin with the closing brace. */
  lemma ListStarts(t: string, p: nat, ms: seq<Entry>, gaps: seq<string>)
    requires ms != [] && |gaps| == |ms| - 1 && AllEntries(ms) && At(t, p, ListText(ms, gaps))
    ensures p <= |t| && Consume(t, p, '}') == Bad
  {
    hide At, Spaces, IsString, IsItem;
    var m := ms[0];
    var k, rest := m.before + m.key, (m.gap + ":") + (m.gap2 + m.value);
    AtFits(t, p, ListText(ms, gaps));
    if |ms| == 1 {
      AtSplit(t, p, k, rest);
    } else {
      var more := (gaps[0] + ",") + ListText(ms[1..], gaps[1..]);
      AtSplit(t, p, EntryText(m), more);
      AtSplit(t, p, k, rest);
    }
    StringStarts(m.key, KeyOf(m.item));
    Token(t, p, m.before, m.key);
  }

  lemma ObjectSound(t: string, c: Config)
    returns (open: string, ms: seq<Entry>, gaps: seq<string>, last: string, end: string)
    requires Fits(c) && ReadObject(t, c).Good? && Spaces(t[ReadObject(t, c).at..])
    ensures IsObject(t, open, ms, gaps, last, end) && ReadObject(t, c).value == AppliedAll(c, ms)
  {
    hide Spaces, IsEntry, EntryText, ReadMembers, Consume, Fits, AppliedAll, ListText;
    var r, p := ReadObject(t, c), Consume(t, 0, '{').at;
    open := MarkSound(t, 0, '{');
    end, gaps, ms := t[r.at..], [], [];
    NothingApplied(c);
    var q := p;
    if Consume(t, p, '}').Bad? {
      ms, gaps := ListSound(t, p, c);
      q := ReadMembers(t, p, c).at;
    }
    last := MarkSound(t, q, '}');
    Joined(t, p, q, r.at);
  }

  lemma Joined(t: string, p: nat, q: nat, e: nat)
    requires p <= q <= e <= |t|
    ensures t == t[0..p] + (t[p..q] + (t[q..e] + t[e..]))
    ensures p == q ==> t == t[0..p] + (t[q..e] + t[e..])
  {
  }

  /** The object gives the config `d` when it is put into `c`. */
  ghost predicate Gives(t: string, c: Config, d: Config) {
    exists open: string, ms: seq<Entry>, gaps: seq<string>, last: string, end: string ::
      IsObject(t, open, ms, gaps, last, end) && AppliedAll(c, ms) == d
  }

  /**
   * Exactly which texts are taken, and what they mean: a text is accepted, and then gives this config, exactly when it
   * is one object of members in any order, each with its value in any spelling of the grammar, which put into the old
   * config one after the other give it, and it is valid. Keys that are missing keep their value, others are skipped.
   */
  lemma FromJsonIs(t: string, c: Config, d: Config)
    requires Fits(c)
    ensures FromJson(t, c) == Some(d) <==>
      && Gives(t, c, d) && Fits(d)
      && d.mac[0] % 2 == 0 && d.mac != [0, 0, 0, 0, 0, 0] && d.apSsid != "" && 1 <= d.apChannel <= 14
      && (d.staPassword == "" || 8 <= |d.staPassword| <= 63)
  {
    hide IsObject, ReadObject, AppliedAll, Spaces;
    if FromJson(t, c) == Some(d) {
      EndRead(t, ReadObject(t, c).at);
      var open, ms, gaps, last, end := ObjectSound(t, c);
      assert IsObject(t, open, ms, gaps, last, end);
    }
    if Gives(t, c, d) && Fits(d) {
      var open: string, ms: seq<Entry>, gaps: seq<string>, last: string, end: string :|
        IsObject(t, open, ms, gaps, last, end) && AppliedAll(c, ms) == d;
      ObjectRead(t, c, open, ms, gaps, last, end);
      EndSpaces(t, open, ms, gaps, last, end);
      EndRead(t, |t| - |end|);
    }
  }

  lemma EndSpaces(t: string, open: string, ms: seq<Entry>, gaps: seq<string>, last: string, end: string)
    requires IsObject(t, open, ms, gaps, last, end) && |end| <= |t| && end <= t[|t| - |end|..]
    ensures Spaces(t[|t| - |end|..])
  {
    hide Spaces, IsEntry, ListText;
    assert t[|t| - |end|..] == end;
  }
}
