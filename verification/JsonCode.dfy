/** The writer and the reader of the config page as the code runs them, over a buffer and a cursor. */
module JsonCode {
  import opened Wrappers
  import opened Json
  import opened ConfigJson

  lemma {:induction false} EscapedSnoc(s: string, c: char)
    ensures Escaped(s + [c]) == Escaped(s) + EscapeChar(c)
  {
    hide EscapeChar;
    if s == "" {
      assert (s + [c])[1..] == "" && (s + [c])[0] == c;
      assert Escaped("") == "";
      assert Escaped(s + [c]) == EscapeChar(c) + "";
    } else {
      assert (s + [c])[1..] == s[1..] + [c];
      EscapedSnoc(s[1..], c);
    }
  }

  class Writer {
    const buf: array<char>
    var used: nat
    var ok: bool
    var first: bool

    ghost predicate Valid()
      reads this
    {
      used <= buf.Length
    }

    /** What was written. */
    ghost function Text(): string
      requires Valid()
      reads this, buf
    {
      buf[..used]
    }

    constructor (buf: array<char>)
      ensures Valid() && this.buf == buf && ok && first && used == 0
    {
      this.buf, used, ok, first := buf, 0, true, true;
    }

    /** Keeps room for the NUL. */
    method Put(c: char)
      requires Valid()
      modifies this`used, this`ok, buf
      ensures Valid() && (ok <==> old(ok) && old(used) + 1 < buf.Length)
      ensures ok ==> Text() == old(Text()) + [c]
    {
      if !ok {
        return;
      }
      if used + 1 >= buf.Length {
        ok := false;
        return;
      }
      buf[used] := c;
      used := used + 1;
    }

    method PutText(s: string)
      requires Valid()
      modifies this`used, this`ok, buf
      ensures Valid() && (ok <==> old(ok) && (s == "" || old(used) + |s| < buf.Length))
      ensures ok ==> Text() == old(Text()) + s
    {
      for i := 0 to |s|
        invariant Valid() && (ok <==> old(ok) && (i == 0 || old(used) + i < buf.Length))
        invariant ok ==> Text() == old(Text()) + s[..i]
      {
        Put(s[i]);
        assert s[..i + 1] == s[..i] + [s[i]];
      }
      assert s[..|s|] == s;
    }

    /** One character of a string, escaped where JSON wants it. */
    method PutEscaped(c: char)
      requires Valid()
      modifies this`used, this`ok, buf
      ensures Valid() && (ok <==> old(ok) && old(used) + |EscapeChar(c)| < buf.Length)
      ensures ok ==> Text() == old(Text()) + EscapeChar(c)
    {
      if c == '"' || c == '\\' {
        Put('\\');
        Put(c);
      } else if c < ' ' {
        PutText("\\u00" + [Hex(c as int / 16), Hex(c as int % 16)]);
      } else {
        Put(c);
      }
    }

    method PutChars(s: string)
      requires Valid()
      modifies this`used, this`ok, buf
      ensures Valid() && (ok <==> old(ok) && (s == "" || old(used) + |Escaped(s)| < buf.Length))
      ensures ok ==> Text() == old(Text()) + Escaped(s)
    {
      hide EscapeChar, Escaped;
      EscapedNone();
      for i := 0 to |s|
        invariant Valid() && (ok <==> old(ok) && (i == 0 || old(used) + |Escaped(s[..i])| < buf.Length))
        invariant ok ==> Text() == old(Text()) + Escaped(s[..i])
      {
        assert s[..i + 1] == s[..i] + [s[i]];
        EscapedSnoc(s[..i], s[i]);
        PutEscaped(s[i]);
      }
      assert s[..|s|] == s;
    }

    method PutString(s: string)
      requires Valid()
      modifies this`used, this`ok, buf
      ensures Valid() && (ok <==> old(ok) && old(used) + |Quoted(s)| < buf.Length)
      ensures ok ==> Text() == old(Text()) + Quoted(s)
    {
      hide Escaped;
      Put('"');
      PutChars(s);
      Put('"');
    }

    method PutKey(name: string)
      requires Valid()
      modifies this, buf
      ensures Valid() && !first
      ensures var k := (if old(first) then "" else ",") + Quoted(name) + ":";
              (ok <==> old(ok) && old(used) + |k| < buf.Length) && (ok ==> Text() == old(Text()) + k)
    {
      hide Quoted;
      QuotedSome(name);
      if !first {
        Put(',');
      }
      first := false;
      PutString(name);
      Put(':');
    }

    /** The three kinds of field(). */
    method PutValue(f: Field)
      requires Valid() && FieldFits(f)
      modifies this`used, this`ok, buf
      ensures Valid() && (ok <==> old(ok) && old(used) + |ValueText(f)| < buf.Length)
      ensures ok ==> Text() == old(Text()) + ValueText(f)
    {
      hide Quoted, Decimal, MacText;
      match f
      case Mac(m) => PutString(MacText(m));
      case ApSsid(s) => PutString(s);
      case ApChannel(n) => PutText(Decimal(n));
      case ApEnabled(b) => PutText(FlagText(b));
      case StaSsid(s) => PutString(s);
      case StaPassword(s) => PutString(s);
      case StaEnabled(b) => PutText(FlagText(b));
      case LedEnabled(b) => PutText(FlagText(b));
      case TelnetEnabled(b) => PutText(FlagText(b));
    }

    /** The object so far: its brace and the first `k` members. */
    ghost predicate Holds(fs: seq<Field>, k: nat)
      requires AllFit(fs) && k <= |fs|
      reads this, buf
    {
      && Valid() && first == (k == 0)
      && (ok <==> 1 + |Members(fs[..k])| < buf.Length)
      && (ok ==> Text() == "{" + Members(fs[..k]))
    }

    method PutField(f: Field, ghost fs: seq<Field>, ghost k: nat)
      requires AllFit(fs) && k < |fs| && f == fs[k] && Holds(fs, k)
      modifies this, buf
      ensures Holds(fs, k + 1)
    {
      hide ValueText, FieldFits, Name, Quoted;
      MembersGrow(fs, k);
      ValueSome(f);
      hide Members;
      PutKey(Name(f));
      PutValue(f);
    }

    method PutFields(c: Config, ghost fs: seq<Field>)
      requires Fits(c) && fs == Fields(c) && AllFit(fs) && Holds(fs, 0)
      modifies this, buf
      ensures Holds(fs, 9)
    {
      hide Writer.Holds, FieldFits, Fits, AllFit, Members;
      FieldList(c);
      hide Fields;
      PutField(Mac(c.mac), fs, 0);
      PutField(ApSsid(c.apSsid), fs, 1);
      PutField(ApChannel(c.apChannel), fs, 2);
      PutField(ApEnabled(c.apEnabled), fs, 3);
      PutField(StaSsid(c.staSsid), fs, 4);
      PutField(StaPassword(c.staPassword), fs, 5);
      PutField(StaEnabled(c.staEnabled), fs, 6);
      PutField(LedEnabled(c.ledEnabled), fs, 7);
      PutField(TelnetEnabled(c.telnetEnabled), fs, 8);
    }
  }

  lemma FieldList(c: Config)
    ensures
      var fs := Fields(c);
      && |fs| == 9 && fs[0] == Mac(c.mac) && fs[1] == ApSsid(c.apSsid) && fs[2] == ApChannel(c.apChannel)
      && fs[3] == ApEnabled(c.apEnabled) && fs[4] == StaSsid(c.staSsid) && fs[5] == StaPassword(c.staPassword)
      && fs[6] == StaEnabled(c.staEnabled) && fs[7] == LedEnabled(c.ledEnabled)
      && fs[8] == TelnetEnabled(c.telnetEnabled)
  {
  }

  lemma EscapedNone()
    ensures Escaped("") == ""
  {
  }

  lemma QuotedSome(s: string)
    ensures |Quoted(s)| > 0
  {
  }

  lemma ValueSome(f: Field)
    requires FieldFits(f)
    ensures |ValueText(f)| > 0
  {
  }

  lemma {:induction false} MembersGrow(fs: seq<Field>, k: nat)
    requires AllFit(fs) && k < |fs|
    ensures Members(fs[..k + 1]) == Members(fs[..k]) + (if k == 0 then "" else ",") + Member(fs[k])
    decreases |fs|
  {
    hide Member, FieldFits;
    if k == 0 {
      assert fs[..1] == [fs[0]];
      assert Members(fs[..0]) == "";
      assert Members([fs[0]]) == Member(fs[0]);
    } else {
      MembersGrow(fs[1..], k - 1);
      assert fs[1..][..k] == fs[..k + 1][1..] && fs[1..][..k - 1] == fs[..k][1..];
      assert Members(fs[..k + 1]) == Member(fs[0]) + "," + Members(fs[..k + 1][1..]);
      if k > 1 {
        assert Members(fs[..k]) == Member(fs[0]) + "," + Members(fs[..k][1..]);
      } else {
        assert fs[..k] == [fs[0]];
        assert Members(fs[1..][..0]) == "";
      }
    }
  }

  /** config_to_json(): the text and its NUL, or 0 when they do not fit. */
  method ToJsonCode(c: Config, buf: array<char>) returns (n: nat)
    requires Fits(c)
    modifies buf
    ensures n == if |ToJson(c)| < buf.Length then |ToJson(c)| else 0
    ensures n > 0 ==> buf[..n] == ToJson(c) && buf[n] == '\0'
  {
    hide Members, FieldFits, Fits;
    FieldsFit(c);
    ghost var fs := Fields(c);
    MembersNone(fs);
    var w := new Writer(buf);
    w.Put('{');
    w.PutFields(c, fs);
    w.Put('}');
    assert fs[..9] == fs;
    if !w.ok {
      return 0;
    }
    buf[w.used] := '\0';
    return w.used;
  }

  lemma MembersNone(fs: seq<Field>)
    requires AllFit(fs)
    ensures Members(fs[..0]) == ""
  {
  }

  class Reader {
    const t: string
    var p: nat

    ghost predicate Valid()
      reads this
    {
      p <= |t|
    }

    constructor (t: string)
      ensures Valid() && this.t == t && p == 0
    {
      this.t, p := t, 0;
    }

    method SkipSpaces()
      requires Valid()
      modifies this`p
      ensures Valid() && p == SkipSpace(t, old(p))
    {
      while p < |t| && IsSpace(t[p])
        invariant Valid() && SkipSpace(t, p) == SkipSpace(t, old(p))
      {
        p := p + 1;
      }
    }

    method Take(c: char) returns (ok: bool)
      requires Valid()
      modifies this`p
      ensures Valid() && (ok <==> Consume(t, old(p), c).Good?)
      ensures p == if ok then Consume(t, old(p), c).at else SkipSpace(t, old(p))
    {
      SkipSpaces();
      if p < |t| && t[p] == c {
        p := p + 1;
        return true;
      }
      return false;
    }

    /** Four hexadecimal digits. */
    method TakeUnicode() returns (ok: bool, c: char)
      requires Valid()
      modifies this`p
      ensures Valid() && (ok <==> UnicodeEscape(t, old(p)).Good?)
      ensures ok ==> Good(c, p) == UnicodeEscape(t, old(p))
    {
      hide HexValue;
      c := ' ';
      ghost var p0 := p;
      if |t| - p < 4 {
        return false, c;
      }
      CodeIs(t, p0);
      var code := 0;
      for i := 0 to 4
        invariant p == p0 + i && p0 + 4 <= |t|
        invariant AllHex(t, p0, i) && code == CodeOf(t, p0, i) && code >= 0
      {
        var digit := HexValue(t[p]);
        p := p + 1;
        if digit < 0 {
          HexFails(t, p0, i, 4);
          return false, c;
        }
        code := code * 16 + digit;
      }
      if code == 0 || code >= 0x80 {
        return false, c;
      }
      return true, code as char;
    }

    /** One character of a string. */
    method TakeChar() returns (ok: bool, c: char)
      requires Valid() && p < |t|
      modifies this`p
      ensures Valid() && (ok <==> ReadChar(t, old(p)).Good?)
      ensures ok ==> Good(c, p) == ReadChar(t, old(p))
    {
      hide UnicodeEscape;
      c := t[p];
      p := p + 1;
      if c < ' ' {
        return false, c;
      }
      if c == '\\' {
        if p >= |t| {
          return false, c;
        }
        c := t[p];
        p := p + 1;
        match c
        case '"' =>
        case '\\' =>
        case '/' =>
        case 'b' => c := 8 as char;
        case 'f' => c := 12 as char;
        case 'n' => c := '\n';
        case 'r' => c := '\r';
        case 't' => c := '\t';
        case 'u' =>
          ok, c := TakeUnicode();
          return;
        case _ => return false, c;
      }
      return true, c;
    }

    method TakeString(limit: Option<nat>) returns (ok: bool, s: string)
      requires Valid()
      modifies this`p
      ensures Valid() && (ok <==> ReadString(t, old(p), limit).Good?)
      ensures ok ==> Good(s, p) == ReadString(t, old(p), limit)
    {
      hide ReadChar;
      s := "";
      ok := Take('"');
      if !ok {
        return;
      }
      ghost var start := p;
      while true
        invariant Valid() && ReadChars(t, p, s, limit) == ReadChars(t, start, "", limit)
        decreases |t| - p
      {
        if p >= |t| {
          return false, s;
        }
        if t[p] == '"' {
          p := p + 1;
          return true, s;
        }
        var good, c := TakeChar();
        if !good {
          return false, s;
        }
        if limit.Some? && |s| + 1 >= limit.value {
          return false, s;
        }
        s := s + [c];
      }
    }

    /** On failure the cursor stands where no word can start, as it did before if no digit came first. */
    method TakeNumber() returns (ok: bool, n: nat)
      requires Valid()
      modifies this`p
      ensures Valid() && (ok <==> ReadNumber(t, old(p)).Good?)
      ensures ok ==> Good(n, p) == ReadNumber(t, old(p))
      ensures !ok ==> var q := SkipSpace(t, old(p));
        q <= p && (p == q || (p < |t| && IsDigit(t[p]) && IsDigit(t[q])))
    {
      SkipSpaces();
      ghost var start := p;
      n := 0;
      var digits := 0;
      while p < |t| && IsDigit(t[p])
        invariant start <= p <= |t| && digits == p - start
        invariant digits > 0 ==> IsDigit(t[start])
        invariant ReadDigits(t, p, digits, n) == ReadDigits(t, start, 0, 0)
        decreases |t| - p
      {
        if digits + 1 > 9 {
          return false, n;
        }
        digits := digits + 1;
        n := n * 10 + DigitValue(t[p]);
        p := p + 1;
      }
      return digits > 0, n;
    }

    method TakeWord(word: string) returns (ok: bool)
      requires Valid()
      modifies this`p
      ensures Valid() && (ok <==> ReadWord(t, old(p), word).Good?)
      ensures p == if ok then ReadWord(t, old(p), word).at else SkipSpace(t, old(p))
    {
      SkipSpaces();
      if |t| - p < |word| || t[p..p + |word|] != word {
        return false;
      }
      p := p + |word|;
      return true;
    }

    method TakeBool() returns (ok: bool, b: bool)
      requires Valid()
      modifies this`p
      ensures Valid() && (ok <==> ReadBool(t, old(p)).Good?)
      ensures ok ==> Good(b, p) == ReadBool(t, old(p))
      ensures !ok ==> p == SkipSpace(t, old(p))
    {
      ok := TakeWord("true");
      if ok {
        return true, true;
      }
      SkipTwice(t, old(p));
      ok := TakeWord("false");
      return ok, false;
    }

    method DropValue() returns (ok: bool)
      requires Valid()
      modifies this`p
      ensures Valid() && (ok <==> SkipValue(t, old(p)).Good?)
      ensures ok ==> p == SkipValue(t, old(p)).at
    {
      hide ReadString, ReadDigits, At;
      SkipSpaces();
      ghost var q := p;
      SkipTwice(t, old(p));
      if p < |t| && t[p] == '"' {
        var s;
        ok, s := TakeString(None);
        return;
      }
      var n, b;
      ok, n := TakeNumber();
      if ok {
        return;
      }
      WordsDiffer(t, q, p);
      ok, b := TakeBool();
      if ok {
        return;
      }
      ok := TakeWord("null");
    }

    method TakeMac() returns (ok: bool, m: seq<nat>)
      requires Valid()
      modifies this`p
      ensures Valid() && (ok <==> ReadMac(t, old(p)).Good?)
      ensures ok ==> Good(m, p) == ReadMac(t, old(p))
    {
      hide ReadString, ReadMacBytes;
      m := [];
      var text;
      ok, text := TakeString(Some(MAC_SIZE));
      if !ok || |text| != 17 {
        return false, m;
      }
      ok, m := MacBytes(text);
    }

    method TakeField(key: string, c: Config) returns (ok: bool, next: Config)
      requires Valid() && Fits(c)
      modifies this`p
      ensures Valid() && (ok <==> ReadField(t, old(p), key, c).Good?)
      ensures ok ==> Good(next, p) == ReadField(t, old(p), key, c)
    {
      hide ReadMac, ReadString, ReadNumber, ReadBool, SkipValue, Fits;
      var s, b, n, m;
      next := c;
      if key == "mac" {
        ok, m := TakeMac();
        next := c.(mac := m);
      } else if key == "ap_ssid" {
        ok, s := TakeString(Some(SSID_MAX + 1));
        next := c.(apSsid := s);
      } else if key == "ap_channel" {
        ok, n := TakeNumber();
        if !ok || n > 255 {
          return false, c;
        }
        next := c.(apChannel := n);
      } else if key == "ap_enabled" {
        ok, b := TakeBool();
        next := c.(apEnabled := b);
      } else if key == "sta_ssid" {
        ok, s := TakeString(Some(SSID_MAX + 1));
        next := c.(staSsid := s);
      } else if key == "sta_password" {
        ok, s := TakeString(Some(PASSWORD_MAX + 1));
        next := c.(staPassword := s);
      } else if key == "sta_enabled" {
        ok, b := TakeBool();
        next := c.(staEnabled := b);
      } else if key == "led_enabled" {
        ok, b := TakeBool();
        next := c.(ledEnabled := b);
      } else if key == "telnet_enabled" {
        ok, b := TakeBool();
        next := c.(telnetEnabled := b);
      } else {
        ok := DropValue();
      }
    }

    method TakeMember(c: Config) returns (ok: bool, next: Config)
      requires Valid() && Fits(c)
      modifies this`p
      ensures Valid() && (ok <==> ReadMember(t, old(p), c).Good?)
      ensures ok ==> Good(next, p) == ReadMember(t, old(p), c)
    {
      hide ReadString, Consume, ReadField, Fits;
      next := c;
      var key;
      ok, key := TakeString(Some(KEY_SIZE));
      if !ok {
        return;
      }
      ok := Take(':');
      if !ok {
        return;
      }
      ok, next := TakeField(key, c);
    }

    /** The do-while loop: the cursor stands before the closing brace when it ends. */
    method TakeMembers(c: Config) returns (ok: bool, next: Config)
      requires Valid() && Fits(c)
      modifies this`p
      ensures Valid() && (ok <==> ReadMembers(t, old(p), c).Good?)
      ensures ok ==> next == ReadMembers(t, old(p), c).value && p == SkipSpace(t, ReadMembers(t, old(p), c).at)
    {
      hide Fits, Consume, ReadMember;
      ghost var start := p;
      next := c;
      while true
        invariant Valid() && Fits(next) && ReadMembers(t, p, next) == ReadMembers(t, start, c)
        decreases |t| - p
      {
        ok, next := TakeMember(next);
        if !ok {
          return;
        }
        var more := Take(',');
        if !more {
          return;
        }
      }
    }
  }

  /** config_from_json(): a text that is refused leaves the config as it was. */
  method FromJsonCode(json: string, config: Config) returns (ok: bool, result: Config)
    requires Fits(config)
    ensures ok <==> FromJson(json, config).Some?
    ensures result == if ok then FromJson(json, config).value else config
  {
    hide ReadMembers, IsValid;
    result := config;
    var next := config;
    var r := new Reader(json);
    ok := r.Take('{');
    if !ok {
      return;
    }
    ghost var p0 := r.p;
    var empty := r.Take('}');
    if !empty {
      MembersAfterSpace(json, p0, config);
      ok, next := r.TakeMembers(next);
      if !ok {
        return;
      }
      SkipTwice(json, ReadMembers(json, p0, config).at);
      ok := r.Take('}');
      if !ok {
        return;
      }
    }
    r.SkipSpaces();
    if r.p != |json| || !IsValid(next) {
      return false, config;
    }
    return true, next;
  }

  /** The six bytes of an address text. */
  method MacBytes(text: string) returns (ok: bool, m: seq<nat>)
    requires |text| == 17
    ensures ok <==> ReadMacBytes(text, 0).Some?
    ensures ok ==> ReadMacBytes(text, 0) == Some(m)
  {
    hide ReadMacBytes, HexValue;
    m := [];
    MacSoFar(text, m, 0);
    for i := 0 to 6
      invariant |m| == i && MacWith(text, m, i) == ReadMacBytes(text, 0)
    {
      MacSoFar(text, m, i);
      var high, low := HexValue(text[i * 3]), HexValue(text[i * 3 + 1]);
      if high < 0 || low < 0 || (i < 5 && text[i * 3 + 2] != ':') {
        return false, m;
      }
      m := m + [high * 16 + low];
    }
    MacSoFar(text, m, 6);
    return true, m;
  }

  /** The address that begins with `m` and goes on as the text does from byte `i` on. */
  function MacWith(text: string, m: seq<nat>, i: nat): Option<seq<nat>>
    requires |text| == 17 && i <= 6
  {
    match ReadMacBytes(text, i)
    case None => None
    case Some(rest) => Some(m + rest)
  }

  lemma MacSoFar(text: string, m: seq<nat>, i: nat)
    requires |text| == 17 && i <= 6
    ensures i == 6 ==> MacWith(text, m, i) == Some(m)
    ensures m == [] ==> MacWith(text, m, i) == ReadMacBytes(text, i)
    ensures i < 6 ==>
      var high, low := HexValue(text[i * 3]), HexValue(text[i * 3 + 1]);
      MacWith(text, m, i) ==
        if high < 0 || low < 0 || (i < 5 && text[i * 3 + 2] != ':') then None
        else MacWith(text, m + [high * 16 + low], i + 1)
  {
    hide HexValue;
    if m == [] && ReadMacBytes(text, i).Some? {
      assert m + ReadMacBytes(text, i).value == ReadMacBytes(text, i).value;
    }
    if i < 6 {
      var rest := ReadMacBytes(text, i + 1);
      var x := HexValue(text[i * 3]) * 16 + HexValue(text[i * 3 + 1]);
      if rest.Some? && x >= 0 {
        assert m + ([x] + rest.value) == (m + [x]) + rest.value;
      }
    } else {
      assert m + [] == m;
    }
  }

  lemma MembersAfterSpace(t: string, p: nat, c: Config)
    requires p <= |t| && Fits(c)
    ensures ReadMembers(t, SkipSpace(t, p), c) == ReadMembers(t, p, c)
  {
    hide ReadField, ReadChars, Fits;
    SkipTwice(t, p);
    var q := SkipSpace(t, p);
    hide SkipSpace;
    assert Consume(t, q, '"') == Consume(t, p, '"');
    assert ReadMember(t, q, c) == ReadMember(t, p, c);
  }

  predicate AllHex(t: string, p: nat, i: nat)
    requires p + i <= |t|
  {
    i == 0 || (AllHex(t, p, i - 1) && HexValue(t[p + i - 1]) >= 0)
  }

  function CodeOf(t: string, p: nat, i: nat): int
    requires p + i <= |t|
  {
    if i == 0 then 0 else CodeOf(t, p, i - 1) * 16 + HexValue(t[p + i - 1])
  }

  lemma CodeIs(t: string, p: nat)
    requires p + 4 <= |t|
    ensures
      var a, b, c, d := HexValue(t[p]), HexValue(t[p + 1]), HexValue(t[p + 2]), HexValue(t[p + 3]);
      && CodeOf(t, p, 4) == ((a * 16 + b) * 16 + c) * 16 + d
      && (AllHex(t, p, 4) <==> a >= 0 && b >= 0 && c >= 0 && d >= 0)
  {
    hide HexValue;
    assert CodeOf(t, p, 1) == HexValue(t[p]) && (AllHex(t, p, 1) <==> HexValue(t[p]) >= 0);
    assert CodeOf(t, p, 2) == HexValue(t[p]) * 16 + HexValue(t[p + 1]);
    assert AllHex(t, p, 2) <==> HexValue(t[p]) >= 0 && HexValue(t[p + 1]) >= 0;
  }

  /** One digit that is no digit spoils the whole escape. */
  lemma {:induction false} HexFails(t: string, p: nat, i: nat, n: nat)
    requires p + n <= |t| && i < n && HexValue(t[p + i]) < 0
    ensures !AllHex(t, p, n)
  {
    if n > i + 1 {
      HexFails(t, p, i, n - 1);
    }
  }

  lemma SkipTwice(t: string, p: nat)
    requires p <= |t|
    ensures SkipSpace(t, SkipSpace(t, p)) == SkipSpace(t, p)
  {
  }

  /** No word is read at a digit, and a word is read from either position alike. */
  lemma WordsDiffer(t: string, q: nat, p: nat)
    requires q <= p <= |t| && SkipSpace(t, q) == q
    requires p == q || (p < |t| && IsDigit(t[p]) && IsDigit(t[q]))
    ensures ReadBool(t, p) == ReadBool(t, q) && ReadWord(t, p, "null") == ReadWord(t, q, "null")
    ensures SkipSpace(t, p) == p
  {
    if p != q {
      NoWord(t, p);
      NoWord(t, q);
    }
  }

  lemma NoWord(t: string, p: nat)
    requires p < |t| && IsDigit(t[p])
    ensures ReadBool(t, p) == Bad && ReadWord(t, p, "null") == Bad && SkipSpace(t, p) == p
  {
    if At(t, p, "true") { AtIndex(t, p, "true", 0); }
    if At(t, p, "false") { AtIndex(t, p, "false", 0); }
    if At(t, p, "null") { AtIndex(t, p, "null", 0); }
  }
}
