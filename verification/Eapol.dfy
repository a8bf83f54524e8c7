/** EAPOL-Key frames of IEEE 802.11-2016 section 12.7.2: building, parsing, the MIC, and the GTK element. */
module Eapol {
  import opened Slices
  import opened Buffers
  import opened Wrappers
  import opened Octets
  import opened Sha1
  import opened Hmac

  const HEADER_LEN: nat := 4
  const KEY_FIXED: nat := 99
  const MIC_OFFSET: nat := 81
  const MIC_LEN: nat := 16

  /** A parsed frame. */
  datatype Key = Key(
    keyInfo: nat, keyLength: nat, replay: seq<bv8>, nonce: seq<bv8>, keyData: seq<bv8>, frameLen: nat)

  function Be16(b: seq<bv8>, at: nat): (n: nat)
    requires at + 2 <= |b|
    ensures n < 0x1_0000
  {
    b[at] as int * 256 + b[at + 1] as int
  }

  function Enc16(n: nat): (b: seq<bv8>)
    ensures |b| == 2
  {
    [ByteOf(n / 256 % 256), ByteOf(n % 256)]
  }

  lemma Enc16Reads(b: seq<bv8>, at: nat, n: nat)
    requires at + 2 <= |b| && b[at..at + 2] == Enc16(n)
    ensures Be16(b, at) == n % 0x1_0000
  {
    hide ByteOf;
    assert b[at] == b[at..at + 2][0] && b[at + 1] == b[at..at + 2][1];
    ByteOfIs(n / 256 % 256);
    ByteOfIs(n % 256);
    TwoDigits(n);
  }

  lemma TwoDigits(n: nat)
    ensures n / 256 % 256 * 256 + n % 256 == n % 0x1_0000
  {
  }

  function Parse(frame: seq<bv8>): (k: Option<Key>)
    ensures k.Some? ==>
      && KEY_FIXED <= k.value.frameLen <= |frame| && |k.value.replay| == 8 && |k.value.nonce| == 32
      && KEY_FIXED + |k.value.keyData| <= k.value.frameLen
      && k.value.keyInfo < 0x1_0000 && k.value.keyLength < 0x1_0000
  {
    if |frame| < KEY_FIXED || frame[1] != 3 || frame[4] != 2 then None else
    var total := HEADER_LEN + Be16(frame, 2);
    if total < KEY_FIXED || total > |frame| then None else
    var kdl := Be16(frame, 97);
    if KEY_FIXED + kdl > total then None else
    Some(Key(Be16(frame, 5), Be16(frame, 7), frame[9..17], frame[17..49], frame[KEY_FIXED..KEY_FIXED + kdl], total))
  }

  lemma TwoBytes(hi: nat, lo: nat)
    requires hi < 256 && lo < 256
    ensures (hi * 256 + lo) / 256 % 256 == hi && (hi * 256 + lo) % 256 == lo
  {
  }

  lemma Enc16Is(hi: nat, lo: nat, x: bv8, y: bv8)
    requires hi < 256 && lo < 256 && ByteOf(hi) == x && ByteOf(lo) == y
    ensures Enc16(hi * 256 + lo) == [x, y]
  {
    hide ByteOf;
    TwoBytes(hi, lo);
  }

  lemma Enc16Of(x: bv8, y: bv8, n: nat)
    requires n == x as int * 256 + y as int
    ensures Enc16(n) == [x, y]
  {
    hide ByteOf, Enc16;
    ByteOfNumber(x);
    ByteOfNumber(y);
    Enc16Is(x as int, y as int, x, y);
  }

  lemma Enc16Back(b: seq<bv8>, at: nat)
    requires at + 2 <= |b|
    ensures b[at..at + 2] == Enc16(Be16(b, at))
  {
    hide ByteOf, Enc16;
    Enc16Of(b[at], b[at + 1], Be16(b, at));
    assert b[at..at + 2] == [b[at], b[at + 1]];
  }

  /** What the bytes of a frame have to be for it to parse to `k`. */
  predicate Reads(frame: seq<bv8>, k: Key) {
    && KEY_FIXED + |k.keyData| <= k.frameLen <= |frame| && k.frameLen - HEADER_LEN < 0x1_0000
    && k.keyInfo < 0x1_0000 && k.keyLength < 0x1_0000
    && frame[1] == 3 && frame[2..4] == Enc16(k.frameLen - HEADER_LEN)
    && frame[4] == 2 && frame[5..7] == Enc16(k.keyInfo) && frame[7..9] == Enc16(k.keyLength)
    && frame[9..17] == k.replay && frame[17..49] == k.nonce
    && frame[97..99] == Enc16(|k.keyData|) && frame[99..99 + |k.keyData|] == k.keyData
  }

  /**
   * A frame parses exactly when its bytes are those of a key frame, and then to these fields. The version, the bytes
   * from 49 to 96 and what follows the key data may be anything.
   */
  lemma ParseIff(frame: seq<bv8>, k: Key)
    ensures Parse(frame) == Some(k) <==> Reads(frame, k)
  {
    hide Parse, Reads;
    if Parse(frame) == Some(k) {
      ParseReads(frame, k);
    }
    if Reads(frame, k) {
      ReadsParse(frame, k);
    }
  }

  lemma ParseReads(frame: seq<bv8>, k: Key)
    requires Parse(frame) == Some(k)
    ensures Reads(frame, k)
  {
    hide Enc16, Be16;
    Enc16Back(frame, 2);
    Enc16Back(frame, 5);
    Enc16Back(frame, 7);
    Enc16Back(frame, 97);
  }

  lemma ReadsParse(frame: seq<bv8>, k: Key)
    requires Reads(frame, k)
    ensures Parse(frame) == Some(k)
  {
    hide Enc16, Be16;
    Enc16Reads(frame, 2, k.frameLen - HEADER_LEN);
    Enc16Reads(frame, 5, k.keyInfo);
    Enc16Reads(frame, 7, k.keyLength);
    Enc16Reads(frame, 97, |k.keyData|);
  }

  lemma ParseFields(frame: seq<bv8>)
    requires Parse(frame).Some?
    ensures
      var k := Parse(frame).value;
      k.keyInfo == frame[5] as int * 256 + frame[6] as int && k.replay == frame[9..17] && k.nonce == frame[17..49]
  {
  }

  // ---- Building ----

  /** The bytes before the MIC field. */
  function Front(keyInfo: nat, keyLength: nat, replay: seq<bv8>, nonce: seq<bv8>, kdl: nat): (b: seq<bv8>)
    requires |replay| == 8 && |nonce| == 32
    ensures |b| == MIC_OFFSET
  {
    [1, 3] + Enc16(KEY_FIXED + kdl - HEADER_LEN) + [2] + Enc16(keyInfo) + Enc16(keyLength) + replay + nonce + Zeros(32)
  }

  function Back(keyData: seq<bv8>): (b: seq<bv8>)
    ensures |b| == 2 + |keyData|
  {
    Enc16(|keyData|) + keyData
  }

  /** Whole frame around a MIC. */
  function Frame(keyInfo: nat, keyLength: nat, replay: seq<bv8>, nonce: seq<bv8>, keyData: seq<bv8>,
                 mic: seq<bv8>): (b: seq<bv8>)
    requires |replay| == 8 && |nonce| == 32 && |mic| == MIC_LEN
    ensures |b| == KEY_FIXED + |keyData|
  {
    Front(keyInfo, keyLength, replay, nonce, |keyData|) + mic + Back(keyData)
  }

  /** The MIC of a frame, computed with its own field read as zero. */
  function MicOf(cf: Compress, kck: seq<bv8>, frame: seq<bv8>): (m: seq<bv8>)
    requires |frame| >= KEY_FIXED
    ensures |m| == MIC_LEN
  {
    Mac(cf, kck, frame[..MIC_OFFSET] + Zeros(MIC_LEN) + frame[MIC_OFFSET + MIC_LEN..])[..MIC_LEN]
  }

  predicate MicOk(cf: Compress, kck: seq<bv8>, frame: seq<bv8>) {
    |frame| >= KEY_FIXED && MicOf(cf, kck, frame) == frame[MIC_OFFSET..MIC_OFFSET + MIC_LEN]
  }

  /** wpa2_eapol_build(): nothing when it does not fit; the MIC stays zero without a key. */
  function Build(cf: Compress, size: nat, keyInfo: nat, keyLength: nat, replay: seq<bv8>, nonce: seq<bv8>,
                 keyData: seq<bv8>, kck: Option<seq<bv8>>): (b: Option<seq<bv8>>)
    requires |replay| == 8 && |nonce| == 32
    ensures b.Some? <==> KEY_FIXED + |keyData| <= size
    ensures b.Some? ==> |b.value| == KEY_FIXED + |keyData|
  {
    if KEY_FIXED + |keyData| > size then None else
    var blank := Frame(keyInfo, keyLength, replay, nonce, keyData, Zeros(MIC_LEN));
    match kck
    case None => Some(blank)
    case Some(key) => Some(Frame(keyInfo, keyLength, replay, nonce, keyData, Mac(cf, key, blank)[..MIC_LEN]))
  }

  /** The fixed bytes of a frame. */
  lemma FrameLayout(keyInfo: nat, keyLength: nat, replay: seq<bv8>, nonce: seq<bv8>, keyData: seq<bv8>, mic: seq<bv8>)
    requires |replay| == 8 && |nonce| == 32 && |mic| == MIC_LEN
    ensures
      var f := Frame(keyInfo, keyLength, replay, nonce, keyData, mic);
      && f[0] == 1 && f[1] == 3 && f[4] == 2 && f[2..4] == Enc16(KEY_FIXED + |keyData| - HEADER_LEN)
      && f[49..81] == Zeros(32)
      && f[5..7] == Enc16(keyInfo) && f[7..9] == Enc16(keyLength) && f[9..17] == replay && f[17..49] == nonce
      && f[..MIC_OFFSET] == Front(keyInfo, keyLength, replay, nonce, |keyData|)
      && f[MIC_OFFSET..MIC_OFFSET + MIC_LEN] == mic && f[MIC_OFFSET + MIC_LEN..] == Back(keyData)
      && f[97..99] == Enc16(|keyData|) && f[KEY_FIXED..] == keyData
  {
    hide Enc16, Zeros;
    FrontLayout(keyInfo, keyLength, replay, nonce, |keyData|);
    var p := Front(keyInfo, keyLength, replay, nonce, |keyData|);
    var f := Frame(keyInfo, keyLength, replay, nonce, keyData, mic);
    hide Front;
    assert f[..MIC_OFFSET] == p;
    assert f[MIC_OFFSET..MIC_OFFSET + MIC_LEN] == mic;
    assert f[MIC_OFFSET + MIC_LEN..] == Back(keyData);
    InPrefix(f, p, 2, 4); InPrefix(f, p, 5, 7); InPrefix(f, p, 7, 9); InPrefix(f, p, 9, 17); InPrefix(f, p, 17, 49);
    InPrefix(f, p, 49, 81);
    assert f[97..99] == Enc16(|keyData|);
    assert f[KEY_FIXED..] == keyData;
  }

  lemma FrontLayout(keyInfo: nat, keyLength: nat, replay: seq<bv8>, nonce: seq<bv8>, kdl: nat)
    requires |replay| == 8 && |nonce| == 32
    ensures
      var p := Front(keyInfo, keyLength, replay, nonce, kdl);
      && p[0] == 1 && p[1] == 3 && p[4] == 2 && p[2..4] == Enc16(KEY_FIXED + kdl - HEADER_LEN) && p[49..81] == Zeros(32)
      && p[5..7] == Enc16(keyInfo) && p[7..9] == Enc16(keyLength) && p[9..17] == replay && p[17..49] == nonce
  {
    hide Enc16, Zeros;
  }

  /**
   * A frame parses back to the fields it was built from, whatever padding follows it, exactly when its body length
   * fits the 16-bit length field; a longer one is refused.
   */
  lemma ParseOfFrame(keyInfo: nat, keyLength: nat, replay: seq<bv8>, nonce: seq<bv8>, keyData: seq<bv8>, mic: seq<bv8>,
                     padding: seq<bv8>)
    requires |replay| == 8 && |nonce| == 32 && |mic| == MIC_LEN
    requires keyInfo < 0x1_0000 && keyLength < 0x1_0000 && |keyData| < 0x1_0000
    ensures
      var f := Frame(keyInfo, keyLength, replay, nonce, keyData, mic);
      Parse(f + padding) ==
        if |f| - HEADER_LEN < 0x1_0000 then Some(Key(keyInfo, keyLength, replay, nonce, keyData, |f|)) else None
  {
    hide Enc16, Frame, Be16;
    var f := Frame(keyInfo, keyLength, replay, nonce, keyData, mic);
    var g := f + padding;
    FrameLayout(keyInfo, keyLength, replay, nonce, keyData, mic);
    assert g[..|f|] == f;
    InPrefix(g, f, 2, 4); InPrefix(g, f, 5, 7); InPrefix(g, f, 7, 9); InPrefix(g, f, 9, 17);
    InPrefix(g, f, 17, 49); InPrefix(g, f, 97, 99);
    InPrefix(g, f, KEY_FIXED, |f|);
    Enc16Reads(g, 2, |f| - HEADER_LEN);
    Enc16Reads(g, 5, keyInfo);
    Enc16Reads(g, 7, keyLength);
    Enc16Reads(g, 97, |keyData|);
    assert f[KEY_FIXED..] == f[KEY_FIXED..|f|];
    if |f| - HEADER_LEN >= 0x1_0000 {
      assert (|f| - HEADER_LEN) % 0x1_0000 == |f| - HEADER_LEN - 0x1_0000 < KEY_FIXED - HEADER_LEN;
    }
  }

  /** A frame built with a key passes the MIC check under that key. */
  lemma MicOfBuild(cf: Compress, size: nat, keyInfo: nat, keyLength: nat, replay: seq<bv8>, nonce: seq<bv8>,
                   keyData: seq<bv8>, kck: seq<bv8>)
    requires |replay| == 8 && |nonce| == 32 && KEY_FIXED + |keyData| <= size
    ensures MicOk(cf, kck, Build(cf, size, keyInfo, keyLength, replay, nonce, keyData, Some(kck)).value)
  {
    hide Mac, Zeros, Front, Back;
    var blank := Frame(keyInfo, keyLength, replay, nonce, keyData, Zeros(MIC_LEN));
    var mic := Mac(cf, kck, blank)[..MIC_LEN];
    FrameLayout(keyInfo, keyLength, replay, nonce, keyData, mic);
  }

  /** The frame with its MIC field, the bytes 81 to 96, set to zero. */
  predicate Blanked(frame: seq<bv8>, blank: seq<bv8>) {
    |blank| == |frame| && forall i :: 0 <= i < |frame| ==> blank[i] == if 81 <= i < 97 then 0 else frame[i]
  }

  /** The MIC is the first 16 bytes of the MAC of the frame with a zero MIC field. */
  lemma MicOkIs(cf: Compress, kck: seq<bv8>, frame: seq<bv8>, blank: seq<bv8>)
    requires |frame| >= 99 && Blanked(frame, blank)
    ensures MicOk(cf, kck, frame) <==> frame[81..97] == Mac(cf, kck, blank)[..16]
  {
    hide Mac;
    assert blank == frame[..MIC_OFFSET] + Zeros(MIC_LEN) + frame[MIC_OFFSET + MIC_LEN..];
  }

  // ---- The GTK element ----

  const KDE: seq<bv8> := [0x00, 0x0F, 0xAC, 0x01]

  datatype Gtk = Gtk(id: bv8, key: seq<bv8>)

  predicate IsGtkAt(d: seq<bv8>, i: nat)
    requires i + 2 <= |d|
  {
    d[i] == 0xDD && d[i + 1] == 22 && i + 24 <= |d| && d[i + 2..i + 6] == KDE
  }

  /** The first GTK element from `i` on; padding or an element that runs past the end ends the search. */
  function FindGtk(d: seq<bv8>, i: nat): (g: Option<Gtk>)
    ensures g.Some? ==> |g.value.key| == 16
    decreases |d| - i
  {
    if i + 2 > |d| then None else
    var n := d[i + 1] as int;
    if d[i] == 0xDD && d[i + 1] == 0 then None
    else if i + 2 + n > |d| then None
    else if IsGtkAt(d, i) then Some(Gtk(d[i + 6] & 0x03, d[i + 8..i + 24]))
    else FindGtk(d, i + 2 + n)
  }

  /** An information element of the key data other than the GTK and other than padding. */
  datatype Element = Element(kind: bv8, body: seq<bv8>)

  predicate Ordinary(e: Element) {
    && |e.body| < 256
    && (e.kind == 0xDD ==> |e.body| > 0 && !(|e.body| == 22 && e.body[..4] == KDE))
  }

  function EncodeElement(e: Element): seq<bv8>
    requires |e.body| < 256
  {
    [e.kind, ByteOf(|e.body|)] + e.body
  }

  predicate AllOrdinary(es: seq<Element>) {
    forall i :: 0 <= i < |es| ==> Ordinary(es[i])
  }

  function EncodeElements(es: seq<Element>): seq<bv8>
    requires AllOrdinary(es)
  {
    if es == [] then [] else EncodeElement(es[0]) + EncodeElements(es[1..])
  }

  function EncodeGtk(idByte: bv8, reserved: bv8, gtk: seq<bv8>): seq<bv8>
    requires |gtk| == 16
  {
    [0xDD, 22] + KDE + [idByte, reserved] + gtk
  }

  lemma FindHere(d: seq<bv8>, i: nat, idByte: bv8, reserved: bv8, gtk: seq<bv8>)
    requires |gtk| == 16 && i + 24 <= |d| && d[i..i + 24] == EncodeGtk(idByte, reserved, gtk)
    ensures FindGtk(d, i) == Some(Gtk(idByte & 0x03, gtk))
  {
    var g := EncodeGtk(idByte, reserved, gtk);
    assert d[i] == g[0] && d[i + 1] == g[1] && d[i + 6] == g[6] by {
      assert d[i] == d[i..i + 24][0] && d[i + 1] == d[i..i + 24][1] && d[i + 6] == d[i..i + 24][6];
    }
    assert g[2..6] == KDE && g[8..24] == gtk;
    Subrange(d, i, 24, 2, 6);
    Subrange(d, i, 24, 8, 24);
    assert (22 as bv8) as int == 22;
  }

  /** The search steps over an ordinary element. */
  lemma FindSkips(d: seq<bv8>, i: nat, e: Element)
    requires Ordinary(e) && i + 2 + |e.body| <= |d| && d[i..i + 2 + |e.body|] == EncodeElement(e)
    ensures FindGtk(d, i) == FindGtk(d, i + 2 + |e.body|)
  {
    OrdinaryFits(e);
    hide FindGtk, EncodeElement, IsGtkAt, Ordinary;
    ElementAt(d, i, e);
    NotGtk(d, i, e);
    FindNext(d, i);
  }

  lemma OrdinaryFits(e: Element)
    requires Ordinary(e)
    ensures |e.body| < 256
  {
  }

  lemma ElementParts(e: Element)
    requires |e.body| < 256
    ensures var x := EncodeElement(e);
      |x| == 2 + |e.body| && x[0] == e.kind && x[1] == ByteOf(|e.body|) && (|e.body| >= 4 ==> x[2..6] == e.body[..4])
  {
    hide ByteOf;
  }

  /** Where an element's bytes stand. */
  lemma ElementAt(d: seq<bv8>, i: nat, e: Element)
    requires |e.body| < 256 && i + 2 + |e.body| <= |d| && d[i..i + 2 + |e.body|] == EncodeElement(e)
    ensures d[i] == e.kind && d[i + 1] as int == |e.body|
    ensures |e.body| >= 4 ==> d[i + 2..i + 6] == e.body[..4]
  {
    var n, x := 2 + |e.body|, EncodeElement(e);
    ByteOfIs(|e.body|);
    ElementParts(e);
    hide ByteOf, EncodeElement;
    assert d[i] == d[i..i + n][0] && d[i + 1] == d[i..i + n][1];
    if |e.body| >= 4 {
      Subrange(d, i, n, 2, 6);
    }
  }

  lemma NotGtk(d: seq<bv8>, i: nat, e: Element)
    requires Ordinary(e) && i + 2 + |e.body| <= |d| && d[i] == e.kind && d[i + 1] as int == |e.body|
    requires |e.body| >= 4 ==> d[i + 2..i + 6] == e.body[..4]
    ensures !IsGtkAt(d, i) && !(d[i] == 0xDD && d[i + 1] == 0)
  {
    LengthBytes(d[i + 1]);
  }

  lemma LengthBytes(x: bv8)
    ensures x == 0 <==> x as int == 0
    ensures x == 22 <==> x as int == 22
  {
  }

  /** The search steps over what is neither padding nor the GTK. */
  lemma FindNext(d: seq<bv8>, i: nat)
    requires i + 2 <= |d| && i + 2 + d[i + 1] as int <= |d| && !(d[i] == 0xDD && d[i + 1] == 0) && !IsGtkAt(d, i)
    ensures FindGtk(d, i) == FindGtk(d, i + 2 + d[i + 1] as int)
  {
  }

  /** The GTK is found behind any ordinary elements, and what follows it does not matter. */
  lemma {:induction false} FindAfter(d: seq<bv8>, i: nat, es: seq<Element>, idByte: bv8, reserved: bv8, gtk: seq<bv8>)
    requires |gtk| == 16 && AllOrdinary(es) && i <= |d|
    requires EncodeElements(es) + EncodeGtk(idByte, reserved, gtk) <= d[i..]
    ensures FindGtk(d, i) == Some(Gtk(idByte & 0x03, gtk))
    decreases |es|
  {
    hide FindGtk, EncodeElement, EncodeGtk, Ordinary;
    var g := EncodeGtk(idByte, reserved, gtk);
    GtkSize(idByte, reserved, gtk);
    if es == [] {
      assert [] + g == g + [];
      Behind(d, i, g, []);
      FindHere(d, i, idByte, reserved, gtk);
    } else {
      var e := es[0];
      ElementSize(e);
      var x := EncodeElement(e);
      var rest := EncodeElements(es[1..]) + g;
      assert EncodeElements(es) + g == x + rest;
      Behind(d, i, x, rest);
      FindSkips(d, i, e);
      FindAfter(d, i + |x|, es[1..], idByte, reserved, gtk);
    }
  }

  /** Where the search ends without a GTK: too few bytes left, padding, or an element that runs past the end. */
  predicate Ends(rest: seq<bv8>) {
    |rest| < 2 || rest[..2] == [0xDD, 0] || 2 + rest[1] as int > |rest|
  }

  /** What the search makes of elements that begin with a GTK, or with an end of the search. */
  predicate Shows(rest: seq<bv8>, g: Option<Gtk>) {
    match g
    case None => Ends(rest)
    case Some(g) =>
      && |g.key| == 16 && |rest| >= 24
      && rest[..24] == EncodeGtk(rest[6], rest[7], g.key) && g.id == rest[6] & 0x03
  }

  /**
   * Every key data is ordinary elements followed by a GTK element, which is then the one found, or by an end of the
   * search, and then none is.
   */
  lemma {:induction false} FindGtkCases(d: seq<bv8>, i: nat) returns (es: seq<Element>, rest: seq<bv8>)
    requires i <= |d|
    ensures AllOrdinary(es) && d[i..] == EncodeElements(es) + rest && Shows(rest, FindGtk(d, i))
    decreases |d| - i
  {
    hide EncodeElement, EncodeElements, Ordinary, FindGtk, IsGtkAt, AllOrdinary, Shows, Over;
    es, rest := [], d[i..];
    NoElements(rest);
    if Over(d, i) {
      EndsHere(d, i);
    } else if IsGtkAt(d, i) {
      GtkHere(d, i);
    } else {
      var e, k := ElementHere(d, i);
      es, rest := FindGtkCases(d, k);
      SplitAt(d, i, k);
      ElementFront(e, es, rest);
      es := [e] + es;
    }
  }

  predicate Over(d: seq<bv8>, i: nat)
    ensures !Over(d, i) ==> i + 2 <= |d|
  {
    i + 2 > |d| || i + 2 + d[i + 1] as int > |d| || (d[i] == 0xDD && d[i + 1] == 0)
  }

  lemma SplitAt(d: seq<bv8>, i: nat, k: nat)
    requires i <= k <= |d|
    ensures d[i..] == d[i..k] + d[k..]
  {
  }

  lemma NoElements(rest: seq<bv8>)
    ensures AllOrdinary([]) && EncodeElements([]) + rest == rest
  {
  }

  lemma ElementFront(e: Element, es: seq<Element>, rest: seq<bv8>)
    requires Ordinary(e) && |e.body| < 256 && AllOrdinary(es)
    ensures AllOrdinary([e] + es)
    ensures EncodeElements([e] + es) + rest == EncodeElement(e) + (EncodeElements(es) + rest)
  {
    hide EncodeElement, Ordinary;
    assert ([e] + es)[1..] == es;
  }

  lemma EndsHere(d: seq<bv8>, i: nat)
    requires i <= |d| && Over(d, i)
    ensures Shows(d[i..], FindGtk(d, i))
  {
    if i + 2 <= |d| {
      assert d[i..][..2] == [d[i], d[i + 1]];
    }
  }

  lemma GtkHere(d: seq<bv8>, i: nat)
    requires i + 2 <= |d| && IsGtkAt(d, i)
    ensures Shows(d[i..], FindGtk(d, i))
  {
    var rest := d[i..];
    GtkBytes(d, i);
    FindHere(d, i, rest[6], rest[7], d[i + 8..i + 24]);
  }

  lemma GtkBytes(d: seq<bv8>, i: nat)
    requires i + 2 <= |d| && IsGtkAt(d, i)
    ensures d[i..][..24] == d[i..i + 24] == EncodeGtk(d[i..][6], d[i..][7], d[i + 8..i + 24])
  {
    var x := d[i..i + 24];
    assert x == [d[i], d[i + 1]] + d[i + 2..i + 6] + [d[i + 6], d[i + 7]] + d[i + 8..i + 24];
  }

  lemma ElementHere(d: seq<bv8>, i: nat) returns (e: Element, k: nat)
    requires i + 2 <= |d| && !Over(d, i) && !IsGtkAt(d, i)
    ensures i < k <= |d| && |e.body| < 256 && Ordinary(e) && EncodeElement(e) == d[i..k]
    ensures FindGtk(d, i) == FindGtk(d, k)
  {
    hide ByteOf, FindGtk, Ordinary, IsGtkAt;
    k := i + 2 + d[i + 1] as int;
    e := Element(d[i], d[i + 2..k]);
    IsOrdinary(d, i, e);
    ByteOfNumber(d[i + 1]);
    FindNext(d, i);
    assert d[i..k] == [d[i], d[i + 1]] + e.body;
  }

  lemma IsOrdinary(d: seq<bv8>, i: nat, e: Element)
    requires i + 2 <= |d| && !Over(d, i) && !IsGtkAt(d, i)
    requires e == Element(d[i], d[i + 2..i + 2 + d[i + 1] as int])
    ensures Ordinary(e) && |e.body| < 256
  {
    LengthBytes(d[i + 1]);
    if |e.body| == 22 {
      Subrange(d, i + 2, 22, 0, 4);
      assert e.body[..4] == e.body[0..4];
    }
  }

  lemma GtkSize(idByte: bv8, reserved: bv8, gtk: seq<bv8>)
    requires |gtk| == 16
    ensures |EncodeGtk(idByte, reserved, gtk)| == 24
  {
  }

  lemma ElementSize(e: Element)
    requires Ordinary(e)
    ensures |e.body| < 256 && |EncodeElement(e)| == 2 + |e.body|
  {
  }

  // ---- The code, on buffers ----

  method BuildCode(cf: Compress, out: array<bv8>, keyInfo: nat, keyLength: nat, replay: seq<bv8>, nonce: seq<bv8>,
                   keyData: seq<bv8>, kck: Option<seq<bv8>>) returns (n: nat)
    requires |replay| == 8 && |nonce| == 32
    modifies out
    ensures n <= out.Length
    ensures
      match Build(cf, out.Length, keyInfo, keyLength, replay, nonce, keyData, kck)
      case None => n == 0 && out[..] == old(out[..])
      case Some(f) => n == |f| && out[..n] == f
  {
    hide Mac, Front, Back, Zeros;
    if KEY_FIXED + |keyData| > out.Length {
      return 0;
    }
    n := KEY_FIXED + |keyData|;
    var front, back := Front(keyInfo, keyLength, replay, nonce, |keyData|), Back(keyData);
    Assemble(out, front, Zeros(MIC_LEN), back);
    if kck.Some? {
      var mic := MacOfParts(cf, kck.value, [out[..n]]);
      FlattenOne(out[..n]);
      Assemble(out, front, mic[..MIC_LEN], back);
    }
  }

  lemma FlattenOne(a: seq<bv8>)
    ensures Flatten([a]) == a
  {
    assert [a][..0] == [];
  }

  method Assemble(out: array<bv8>, a: seq<bv8>, b: seq<bv8>, c: seq<bv8>)
    requires |a| + |b| + |c| <= out.Length
    modifies out
    ensures out[..|a| + |b| + |c|] == a + b + c
  {
    CopyIn(out, 0, a);
    CopyIn(out, |a|, b);
    assert out[..|a| + |b|] == a + b;
    CopyIn(out, |a| + |b|, c);
    assert out[..|a| + |b| + |c|] == (a + b) + c;
  }

  /** Three updates around the MIC field, then a comparison without an early exit. */
  method MicOkCode(cf: Compress, kck: seq<bv8>, frame: seq<bv8>) returns (ok: bool)
    ensures ok <==> MicOk(cf, kck, frame)
  {
    hide Mac, Zeros;
    if |frame| < KEY_FIXED {
      return false;
    }
    var parts := [frame[..MIC_OFFSET], Zeros(MIC_LEN), frame[MIC_OFFSET + MIC_LEN..]];
    FlattenThree(frame[..MIC_OFFSET], Zeros(MIC_LEN), frame[MIC_OFFSET + MIC_LEN..]);
    var mac := MacOfParts(cf, kck, parts);
    var mic, theirs := mac[..MIC_LEN], frame[MIC_OFFSET..MIC_OFFSET + MIC_LEN];
    var diff: bv8 := 0;
    for i := 0 to MIC_LEN
      invariant diff == 0 <==> forall j :: 0 <= j < i ==> mic[j] == theirs[j]
    {
      OrXorZero(diff, mic[i], theirs[i]);
      diff := diff | (mic[i] ^ theirs[i]);
    }
    ok := diff == 0;
  }

  lemma OrXorZero(d: bv8, x: bv8, y: bv8)
    ensures d | (x ^ y) == 0 <==> d == 0 && x == y
  {
  }

  lemma FlattenThree(a: seq<bv8>, b: seq<bv8>, c: seq<bv8>)
    ensures Flatten([a, b, c]) == a + b + c
  {
    FlattenOne(a);
    assert [a, b][..1] == [a];
    assert Flatten([a, b]) == a + b;
    assert [a, b, c][..2] == [a, b];
  }

  method FindGtkCode(d: seq<bv8>) returns (g: Option<Gtk>)
    ensures g == FindGtk(d, 0)
  {
    var i := 0;
    while i + 2 <= |d|
      invariant FindGtk(d, 0) == FindGtk(d, i)
      decreases |d| - i
    {
      var kind, elen := d[i], d[i + 1];
      if kind == 0xDD && elen == 0 {
        return None;
      }
      if i + 2 + elen as int > |d| {
        return None;
      }
      if IsGtkAt(d, i) {
        return Some(Gtk(d[i + 6] & 0x03, d[i + 8..i + 24]));
      }
      i := i + 2 + elen as int;
    }
    return None;
  }
}
