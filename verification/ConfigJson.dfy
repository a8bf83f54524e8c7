/** The device config as one JSON object: printing, parsing, and that parsing undoes printing. */
module ConfigJson {
  import opened Wrappers
  import opened Json

  const SSID_MAX: nat := 32
  const PASSWORD_MAX: nat := 63
  const KEY_SIZE: nat := 24
  const MAC_SIZE: nat := 18
  const CONFIG_JSON_MAX: nat := 1024

  /** A config. Strings are the bytes before the terminating NUL. */
  datatype Config = Config(
    mac: seq<nat>, apSsid: string, apChannel: nat, apEnabled: bool,
    staSsid: string, staPassword: string, staEnabled: bool, ledEnabled: bool, telnetEnabled: bool)

  /** What the field types allow. */
  ghost predicate Fits(c: Config) {
    && |c.mac| == 6 && (forall i :: 0 <= i < 6 ==> c.mac[i] < 256)
    && NulFree(c.apSsid) && |c.apSsid| <= SSID_MAX
    && c.apChannel < 256
    && NulFree(c.staSsid) && |c.staSsid| <= SSID_MAX
    && NulFree(c.staPassword) && |c.staPassword| <= PASSWORD_MAX
  }

  /** Unicast and not all zero. */
  predicate MacIsValid(mac: seq<nat>)
    requires |mac| == 6
  {
    mac[0] % 2 == 0 && mac != [0, 0, 0, 0, 0, 0]
  }

  predicate IsValid(c: Config)
    requires |c.mac| == 6
  {
    && MacIsValid(c.mac)
    && c.apSsid != ""
    && 1 <= c.apChannel <= 14
    && (|c.staPassword| == 0 || |c.staPassword| >= 8)
  }

  // ---- One field ----

  datatype Field =
    | Mac(mac: seq<nat>) | ApSsid(s: string) | ApChannel(n: nat) | ApEnabled(b: bool)
    | StaSsid(s: string) | StaPassword(s: string) | StaEnabled(b: bool) | LedEnabled(b: bool) | TelnetEnabled(b: bool)

  ghost predicate FieldFits(f: Field) {
    match f
    case Mac(m) => |m| == 6 && forall i :: 0 <= i < 6 ==> m[i] < 256
    case ApSsid(s) => NulFree(s) && |s| <= SSID_MAX
    case ApChannel(n) => n < 256
    case StaSsid(s) => NulFree(s) && |s| <= SSID_MAX
    case StaPassword(s) => NulFree(s) && |s| <= PASSWORD_MAX
    case _ => true
  }

  function Name(f: Field): string {
    match f
    case Mac(_) => "mac"
    case ApSsid(_) => "ap_ssid"
    case ApChannel(_) => "ap_channel"
    case ApEnabled(_) => "ap_enabled"
    case StaSsid(_) => "sta_ssid"
    case StaPassword(_) => "sta_password"
    case StaEnabled(_) => "sta_enabled"
    case LedEnabled(_) => "led_enabled"
    case TelnetEnabled(_) => "telnet_enabled"
  }

  function Hex2(n: nat): (s: string)
    requires n < 256
    ensures |s| == 2 && Plain(s)
  {
    [Hex(n / 16), Hex(n % 16)]
  }

  function MacText(m: seq<nat>): (s: string)
    requires |m| == 6 && forall i :: 0 <= i < 6 ==> m[i] < 256
    ensures |s| == 17 && Plain(s)
  {
    Hex2(m[0]) + ":" + Hex2(m[1]) + ":" + Hex2(m[2]) + ":" + Hex2(m[3]) + ":" + Hex2(m[4]) + ":" + Hex2(m[5])
  }

  function ValueText(f: Field): string
    requires FieldFits(f)
  {
    match f
    case Mac(m) => Quoted(MacText(m))
    case ApSsid(s) => Quoted(s)
    case ApChannel(n) => Decimal(n)
    case ApEnabled(b) => FlagText(b)
    case StaSsid(s) => Quoted(s)
    case StaPassword(s) => Quoted(s)
    case StaEnabled(b) => FlagText(b)
    case LedEnabled(b) => FlagText(b)
    case TelnetEnabled(b) => FlagText(b)
  }

  function Member(f: Field): string
    requires FieldFits(f)
  {
    Quoted(Name(f)) + ":" + ValueText(f)
  }

  function Set(c: Config, f: Field): Config {
    match f
    case Mac(m) => c.(mac := m)
    case ApSsid(s) => c.(apSsid := s)
    case ApChannel(n) => c.(apChannel := n)
    case ApEnabled(b) => c.(apEnabled := b)
    case StaSsid(s) => c.(staSsid := s)
    case StaPassword(s) => c.(staPassword := s)
    case StaEnabled(b) => c.(staEnabled := b)
    case LedEnabled(b) => c.(ledEnabled := b)
    case TelnetEnabled(b) => c.(telnetEnabled := b)
  }

  // ---- The object ----

  function Fields(c: Config): seq<Field> {
    [Mac(c.mac), ApSsid(c.apSsid), ApChannel(c.apChannel), ApEnabled(c.apEnabled), StaSsid(c.staSsid),
     StaPassword(c.staPassword), StaEnabled(c.staEnabled), LedEnabled(c.ledEnabled), TelnetEnabled(c.telnetEnabled)]
  }

  ghost predicate AllFit(fs: seq<Field>) {
    forall i :: 0 <= i < |fs| ==> FieldFits(fs[i])
  }

  /** Members with commas between them. */
  function Members(fs: seq<Field>): string
    requires AllFit(fs)
  {
    if fs == [] then "" else if |fs| == 1 then Member(fs[0]) else Member(fs[0]) + "," + Members(fs[1..])
  }

  function ToJson(c: Config): string
    requires Fits(c)
  {
    "{" + Members(Fields(c)) + "}"
  }

  // ---- Parsing ----

  function ReadMacBytes(s: string, i: nat): (m: Option<seq<nat>>)
    requires |s| == 17 && i <= 6
    ensures m.Some? ==> |m.value| == 6 - i && forall k :: 0 <= k < 6 - i ==> m.value[k] < 256
    decreases 6 - i
  {
    if i == 6 then Some([]) else
    var high, low := HexValue(s[i * 3]), HexValue(s[i * 3 + 1]);
    if high < 0 || low < 0 || (i < 5 && s[i * 3 + 2] != ':') then None else
    match ReadMacBytes(s, i + 1)
    case None => None
    case Some(rest) => Some([high * 16 + low] + rest)
  }

  function ReadMac(t: string, p: nat): (r: Parsed<seq<nat>>)
    requires p <= |t|
    ensures r.Good? ==> p <= r.at <= |t| && |r.value| == 6 && forall k :: 0 <= k < 6 ==> r.value[k] < 256
  {
    match ReadString(t, p, Some(MAC_SIZE))
    case Bad => Bad
    case Good(s, q) =>
      if |s| != 17 then Bad else
      match ReadMacBytes(s, 0)
      case None => Bad
      case Some(m) => Good(m, q)
  }

  /** The config with a field that was read, and the position behind it. */
  function Stored(c: Config, f: Field, at: nat): (r: Parsed<Config>)
    requires Fits(c) && FieldFits(f)
    ensures r.Good? && r.at == at && r.value == Set(c, f) && Fits(r.value)
  {
    SetFits(c, f);
    Good(Set(c, f), at)
  }

  /** The value of one member, put into the config; the value of an unknown key is skipped. */
  function ReadField(t: string, p: nat, key: string, c: Config): (r: Parsed<Config>)
    requires p <= |t| && Fits(c)
    ensures r.Good? ==> p <= r.at <= |t| && Fits(r.value)
  {
    if key == "mac" then
      (match ReadMac(t, p) case Bad => Bad case Good(m, q) => Stored(c, Mac(m), q))
    else if key == "ap_ssid" then
      (match ReadString(t, p, Some(SSID_MAX + 1)) case Bad => Bad case Good(s, q) => Stored(c, ApSsid(s), q))
    else if key == "ap_channel" then
      (match ReadNumber(t, p) case Bad => Bad case Good(n, q) => if n > 255 then Bad else Stored(c, ApChannel(n), q))
    else if key == "ap_enabled" then
      (match ReadBool(t, p) case Bad => Bad case Good(b, q) => Stored(c, ApEnabled(b), q))
    else if key == "sta_ssid" then
      (match ReadString(t, p, Some(SSID_MAX + 1)) case Bad => Bad case Good(s, q) => Stored(c, StaSsid(s), q))
    else if key == "sta_password" then
      (match ReadString(t, p, Some(PASSWORD_MAX + 1)) case Bad => Bad case Good(s, q) => Stored(c, StaPassword(s), q))
    else if key == "sta_enabled" then
      (match ReadBool(t, p) case Bad => Bad case Good(b, q) => Stored(c, StaEnabled(b), q))
    else if key == "led_enabled" then
      (match ReadBool(t, p) case Bad => Bad case Good(b, q) => Stored(c, LedEnabled(b), q))
    else if key == "telnet_enabled" then
      (match ReadBool(t, p) case Bad => Bad case Good(b, q) => Stored(c, TelnetEnabled(b), q))
    else
      match SkipValue(t, p) case Bad => Bad case Good(_, q) => Good(c, q)
  }

  /** A key, a colon and a value. */
  function ReadMember(t: string, p: nat, c: Config): (r: Parsed<Config>)
    requires p <= |t| && Fits(c)
    ensures r.Good? ==> p < r.at <= |t| && Fits(r.value)
  {
    match ReadString(t, p, Some(KEY_SIZE))
    case Bad => Bad
    case Good(key, q) =>
      match Consume(t, q, ':')
      case Bad => Bad
      case Good(_, v) => ReadField(t, v, key, c)
  }

  /** Members as long as a comma follows. */
  function ReadMembers(t: string, p: nat, c: Config): (r: Parsed<Config>)
    requires p <= |t| && Fits(c)
    ensures r.Good? ==> p < r.at <= |t| && Fits(r.value)
    decreases |t| - p
  {
    match ReadMember(t, p, c)
    case Bad => Bad
    case Good(next, q) =>
      match Consume(t, q, ',')
      case Bad => Good(next, q)
      case Good(_, more) => ReadMembers(t, more, next)
  }

  /** The object with its braces. */
  function ReadObject(t: string, c: Config): (r: Parsed<Config>)
    requires Fits(c)
    ensures r.Good? ==> r.at <= |t| && Fits(r.value)
  {
    match Consume(t, 0, '{')
    case Bad => Bad
    case Good(_, p) =>
      match Consume(t, p, '}')
      case Good(_, q) => Good(c, q)
      case Bad =>
        match ReadMembers(t, p, c)
        case Bad => Bad
        case Good(next, q) =>
          match Consume(t, q, '}')
          case Bad => Bad
          case Good(_, e) => Good(next, e)
  }

  /** Accepted is a whole object with nothing but white space behind it, whose values make a valid config. */
  function FromJson(t: string, c: Config): (r: Option<Config>)
    requires Fits(c)
    ensures r.Some? ==> Fits(r.value) && IsValid(r.value)
  {
    match ReadObject(t, c)
    case Bad => None
    case Good(next, p) => if SkipSpace(t, p) == |t| && IsValid(next) then Some(next) else None
  }

  // ---- Parsing undoes printing ----

  /** The two digits of byte `i` stand at their place, with a colon behind them except for the last. */
  predicate ByteAt(s: string, i: nat, n: nat)
    requires |s| == 17 && i < 6 && n < 256
  {
    s[i * 3] == Hex(n / 16) && s[i * 3 + 1] == Hex(n % 16) && (i < 5 ==> s[i * 3 + 2] == ':')
  }

  lemma MacComesBack(m: seq<nat>)
    requires |m| == 6 && forall i :: 0 <= i < 6 ==> m[i] < 256
    ensures ReadMacBytes(MacText(m), 0) == Some(m) && NulFree(MacText(m))
  {
    hide Hex, Plain, ReadMacBytes, NulFree;
    var s := MacText(m);
    assert ByteAt(s, 0, m[0]) && ByteAt(s, 1, m[1]) && ByteAt(s, 2, m[2]);
    assert ByteAt(s, 3, m[3]) && ByteAt(s, 4, m[4]) && ByteAt(s, 5, m[5]);
    PlainIsNulFree(s);
    MacTail(s, m, 0);
    assert m[0..] == m;
  }

  lemma MacStep(s: string, i: nat, n: nat)
    requires |s| == 17 && i < 6 && n < 256 && ByteAt(s, i, n)
    ensures
      match ReadMacBytes(s, i + 1)
      case None => true
      case Some(rest) => ReadMacBytes(s, i) == Some([n] + rest)
  {
    hide Hex, HexValue;
    assert HexValue(s[i * 3]) == n / 16 && HexValue(s[i * 3 + 1]) == n % 16;
  }

  lemma {:induction false} MacTail(s: string, m: seq<nat>, i: nat)
    requires |s| == 17 && |m| == 6 && i <= 6 && forall k :: 0 <= k < 6 ==> m[k] < 256 && ByteAt(s, k, m[k])
    ensures ReadMacBytes(s, i) == Some(m[i..])
    decreases 6 - i
  {
    hide ByteAt;
    if i < 6 {
      MacTail(s, m, i + 1);
      MacStep(s, i, m[i]);
      assert m[i..] == [m[i]] + m[i + 1..];
    } else {
      MacEnd(s, m);
    }
  }

  lemma MacEnd(s: string, m: seq<nat>)
    requires |s| == 17 && |m| == 6
    ensures ReadMacBytes(s, 6) == Some(m[6..])
  {
    assert m[6..] == [];
  }

  lemma ReadMacAt(t: string, p: nat, m: seq<nat>)
    requires |m| == 6 && (forall i :: 0 <= i < 6 ==> m[i] < 256) && At(t, p, Quoted(MacText(m)))
    ensures ReadMac(t, p) == Good(m, p + |Quoted(MacText(m))|)
  {
    hide At, Quoted, MacText, ReadMacBytes, ReadString;
    AtFits(t, p, Quoted(MacText(m)));
    MacComesBack(m);
    ReadStringAt(t, p, MacText(m), Some(MAC_SIZE));
  }

  /** A field's value, followed by something that is not a digit, is read back into its place. */
  lemma ReadFieldAt(t: string, p: nat, f: Field, c: Config)
    requires FieldFits(f) && Fits(c) && At(t, p, ValueText(f))
    requires p + |ValueText(f)| < |t| ==> !IsDigit(t[p + |ValueText(f)|])
    ensures p <= |t| && ReadField(t, p, Name(f), c) == Good(Set(c, f), p + |ValueText(f)|)
  {
    hide At, Quoted, MacText, ReadMac, ReadString, ReadNumber, ReadBool, SkipValue, Decimal, FlagText, Set, Fits;
    AtFits(t, p, ValueText(f));
    match f
    case Mac(m) => ReadMacAt(t, p, m);
    case ApSsid(s) => ReadStringAt(t, p, s, Some(SSID_MAX + 1));
    case ApChannel(n) => ReadNumberAt(t, p, n);
    case ApEnabled(b) => ReadBoolAt(t, p, b);
    case StaSsid(s) => ReadStringAt(t, p, s, Some(SSID_MAX + 1));
    case StaPassword(s) => ReadStringAt(t, p, s, Some(PASSWORD_MAX + 1));
    case StaEnabled(b) => ReadBoolAt(t, p, b);
    case LedEnabled(b) => ReadBoolAt(t, p, b);
    case TelnetEnabled(b) => ReadBoolAt(t, p, b);
  }

  lemma NameFits(f: Field)
    ensures NulFree(Name(f)) && |Name(f)| < KEY_SIZE && Plain(Name(f))
  {
    hide NulFree;
    PlainIsNulFree(Name(f));
  }

  lemma ReadMemberAt(t: string, p: nat, f: Field, c: Config)
    requires FieldFits(f) && Fits(c) && At(t, p, Member(f))
    requires p + |Member(f)| < |t| ==> !IsDigit(t[p + |Member(f)|])
    ensures p <= |t| && ReadMember(t, p, c) == Good(Set(c, f), p + |Member(f)|)
  {
    hide At, Quoted, ValueText, ReadString, Consume, ReadField, Set, Name;
    var key, v := Quoted(Name(f)), ValueText(f);
    assert Member(f) == key + (":" + v);
    AtFits(t, p, Member(f));
    AtSplit(t, p, key, ":" + v);
    AtSplit(t, p + |key|, ":", v);
    NameFits(f);
    ReadStringAt(t, p, Name(f), Some(KEY_SIZE));
    ConsumeAt(t, p + |key|, ':');
    ReadFieldAt(t, p + |key| + 1, f, c);
  }

  function SetAll(c: Config, fs: seq<Field>): Config
    decreases |fs|
  {
    if fs == [] then c else SetAll(Set(c, fs[0]), fs[1..])
  }

  lemma SetFits(c: Config, f: Field)
    requires Fits(c) && FieldFits(f)
    ensures Fits(Set(c, f))
  {
  }

  /** A list of members in front of the closing brace is read whole, in order. */
  lemma {:induction false} ReadMembersAt(t: string, p: nat, fs: seq<Field>, c: Config)
    requires AllFit(fs) && fs != [] && Fits(c) && At(t, p, Members(fs) + "}")
    ensures p <= |t| && ReadMembers(t, p, c) == Good(SetAll(c, fs), p + |Members(fs)|)
    decreases |fs|
  {
    hide At, Member, ReadMember, Consume, Set, FieldFits, Fits;
    var f, m := fs[0], Member(fs[0]);
    AtFits(t, p, Members(fs) + "}");
    SetFits(c, f);
    if |fs| == 1 {
      AtSplit(t, p, m, "}");
      AtIndex(t, p + |m|, "}", 0);
      ReadMemberAt(t, p, f, c);
      NotHere(t, p + |m|, ',');
      assert fs[1..] == [];
      assert SetAll(Set(c, f), []) == Set(c, f);
    } else {
      var rest := Members(fs[1..]) + "}";
      assert Members(fs) + "}" == m + ("," + rest);
      AtSplit(t, p, m, "," + rest);
      AtSplit(t, p + |m|, ",", rest);
      AtIndex(t, p + |m|, ",", 0);
      ReadMemberAt(t, p, f, c);
      ConsumeAt(t, p + |m|, ',');
      ReadMembersAt(t, p + |m| + 1, fs[1..], Set(c, f));
    }
  }

  lemma NotHere(t: string, p: nat, c: char)
    requires p < |t| && !IsSpace(t[p]) && t[p] != c
    ensures Consume(t, p, c) == Bad
  {
  }

  lemma FieldsFit(c: Config)
    requires Fits(c)
    ensures AllFit(Fields(c))
  {
  }

  /** All fields together determine the config, whatever was there before. */
  lemma SetAllFields(prior: Config, c: Config)
    ensures SetAll(prior, Fields(c)) == c
  {
    hide SetAll, Set;
    var fs := Fields(c);
    NineSets(prior, c);
    assert fs[0..] == fs && fs[9..] == [];
    SetNext(prior, fs, 0);
    var c1 := Set(prior, fs[0]); SetNext(c1, fs, 1);
    var c2 := Set(c1, fs[1]); SetNext(c2, fs, 2);
    var c3 := Set(c2, fs[2]); SetNext(c3, fs, 3);
    var c4 := Set(c3, fs[3]); SetNext(c4, fs, 4);
    var c5 := Set(c4, fs[4]); SetNext(c5, fs, 5);
    var c6 := Set(c5, fs[5]); SetNext(c6, fs, 6);
    var c7 := Set(c6, fs[6]); SetNext(c7, fs, 7);
    var c8 := Set(c7, fs[7]); SetNext(c8, fs, 8);
    SetNone(Set(c8, fs[8]));
  }

  lemma NineSets(prior: Config, c: Config)
    ensures
      var c3 := Set(Set(Set(prior, Mac(c.mac)), ApSsid(c.apSsid)), ApChannel(c.apChannel));
      var c6 := Set(Set(Set(c3, ApEnabled(c.apEnabled)), StaSsid(c.staSsid)), StaPassword(c.staPassword));
      Set(Set(Set(c6, StaEnabled(c.staEnabled)), LedEnabled(c.ledEnabled)), TelnetEnabled(c.telnetEnabled)) == c
  {
  }

  lemma SetNext(c: Config, fs: seq<Field>, i: nat)
    requires i < |fs|
    ensures SetAll(c, fs[i..]) == SetAll(Set(c, fs[i]), fs[i + 1..])
  {
    assert fs[i..][1..] == fs[i + 1..];
  }

  lemma SetNone(c: Config)
    ensures SetAll(c, []) == c
  {
  }

  /** Parsing what was printed gives back the config exactly when it is valid, whatever the config was before. */
  lemma RoundTrip(c: Config, prior: Config)
    requires Fits(c) && Fits(prior)
    ensures FromJson(ToJson(c), prior) == if IsValid(c) then Some(c) else None
  {
    hide At, Members, Fields, ReadMembers, SetAll, Fits, IsValid;
    FieldsFit(c);
    var t, fs := ToJson(c), Fields(c);
    FieldsSome(c);
    var inner := Members(fs) + "}";
    assert t == "{" + inner;
    assert At(t, 0, "{" + inner) by { AtAll(t); }
    AtSplit(t, 0, "{", inner);
    ConsumeAt(t, 0, '{');
    StartsQuoted(fs);
    AtIndex(t, 1, inner, 0);
    NotHere(t, 1, '}');
    ReadMembersAt(t, 1, fs, prior);
    AtSplit(t, 1, Members(fs), "}");
    ConsumeAt(t, 1 + |Members(fs)|, '}');
    SetAllFields(prior, c);
  }

  lemma FieldsSome(c: Config)
    ensures |Fields(c)| == 9
  {
  }

  lemma AtAll(t: string)
    ensures At(t, 0, t)
  {
    assert t[0..|t|] == t;
  }

  lemma StartsQuoted(fs: seq<Field>)
    requires AllFit(fs) && fs != []
    ensures |Members(fs)| > 0 && Members(fs)[0] == '"'
  {
    hide Name, ValueText, Escaped;
    var m := Member(fs[0]);
    assert m[0] == '"';
  }

  // ---- The length ----

  lemma MemberLength(f: Field)
    requires FieldFits(f)
    ensures |Member(f)| == |Name(f)| + 3 + |ValueText(f)|
    ensures f.Mac? ==> |ValueText(f)| == 19
    ensures f.ApSsid? || f.StaSsid? ==> |ValueText(f)| <= 2 + 6 * SSID_MAX
    ensures f.StaPassword? ==> |ValueText(f)| <= 2 + 6 * PASSWORD_MAX
    ensures f.ApChannel? ==> |ValueText(f)| <= 3
    ensures f.ApEnabled? || f.StaEnabled? || f.LedEnabled? || f.TelnetEnabled? ==> |ValueText(f)| <= 5
  {
    hide Escaped, Decimal, MacText;
    NameFits(f);
    EscapedPlain(Name(f));
    if f.Mac? {
      EscapedPlain(MacText(f.mac));
    }
    if f.ApChannel? {
      ThousandIs();
      DecimalLength(f.n, 3, 1000);
    }
  }

  lemma ThousandIs()
    ensures Power10(3) == 1000
  {
  }

  lemma MembersNext(fs: seq<Field>, i: nat)
    requires AllFit(fs) && i < |fs|
    ensures AllFit(fs[i..]) && AllFit(fs[i + 1..])
    ensures |Members(fs[i..])| == |Member(fs[i])| + if i + 1 == |fs| then 0 else 1 + |Members(fs[i + 1..])|
  {
    hide Member, FieldFits;
    assert fs[i..][0] == fs[i] && fs[i..][1..] == fs[i + 1..];
  }

  /** The text never needs more than 933 characters, so it always fits the page's buffer with its NUL. */
  lemma TextFits(c: Config)
    requires Fits(c)
    ensures |ToJson(c)| <= 933 < CONFIG_JSON_MAX
  {
    hide Member, Members, ValueText, FieldFits, Fits;
    FieldsFit(c);
    var fs := Fields(c);
    assert fs[0..] == fs;
    MembersNext(fs, 0); MembersNext(fs, 1); MembersNext(fs, 2); MembersNext(fs, 3); MembersNext(fs, 4);
    MembersNext(fs, 5); MembersNext(fs, 6); MembersNext(fs, 7); MembersNext(fs, 8);
    MemberLength(fs[0]); MemberLength(fs[1]); MemberLength(fs[2]); MemberLength(fs[3]); MemberLength(fs[4]);
    MemberLength(fs[5]); MemberLength(fs[6]); MemberLength(fs[7]); MemberLength(fs[8]);
  }
}
