/**
 * The station's side of the WPA2-PSK handshake (IEEE 802.11-2016 section 12.7): one step per received frame. The ops
 * it calls are recorded in a trace together with what they answered, so that safety is a statement about traces.
 */
module Wpa2Sm {
  import opened Wrappers
  import opened Arithmetic
  import opened Octets
  import opened Sha1
  import opened Kdf
  import opened KeyWrap
  import opened Eapol

  const EAPOL_MAX: nat := 512
  const KEY_DATA_MAX: nat := 192

  const PAIRWISE: nat := 0x0008
  const INSTALL: nat := 0x0040
  const ACK: nat := 0x0080
  const MIC: nat := 0x0100
  const SECURE: nat := 0x0200
  const ENCRYPTED: nat := 0x1000
  const MSG2: nat := 0x010A
  const MSG4: nat := 0x030A
  const GROUP_MSG2: nat := 0x0302

  const ZERO_NONCE: seq<bv8> := Zeros(32)
  const RSN_IE: seq<bv8> := [
    0x30, 0x14, 0x01, 0x00, 0x00, 0x0F, 0xAC, 0x04, 0x01, 0x00, 0x00,
    0x0F, 0xAC, 0x04, 0x01, 0x00, 0x00, 0x0F, 0xAC, 0x02, 0x00, 0x00]

  type Nonce = n: seq<bv8> | |n| == 32 witness seq(32, _ => 0)

  datatype Phase = Idle | GotMsg1 | Established
  datatype Result = Ignored | Progress | Done | Failed

  /** A call of an op, and its answer. */
  datatype Op =
    | Send(frame: seq<bv8>, ok: bool)
    | InstallPtk(tk: seq<bv8>, ok: bool)
    | InstallGtk(gtk: Gtk, ok: bool)
    | OpenPort(ok: bool)

  /** What the ops answer while one frame is handled; no op is called twice for a frame. */
  datatype Answers = Answers(send: bool, ptk: bool, gtk: bool, port: bool, random: Nonce)

  datatype Sm = Sm(
    pmk: seq<bv8>, aa: seq<bv8>, spa: seq<bv8>,
    ptk: seq<bv8>, anonce: seq<bv8>, snonce: seq<bv8>,
    replay: Option<seq<bv8>>, gtk: Option<Gtk>, ptkInstalled: bool, phase: Phase, trace: seq<Op>)

  predicate Shaped(s: Sm) {
    && |s.aa| == |s.spa| == 6 && |s.ptk| == 48 && |s.anonce| == |s.snonce| == 32
    && (s.replay.Some? ==> |s.replay.value| == 8)
  }

  function Kck(s: Sm): seq<bv8>
    requires Shaped(s)
  {
    s.ptk[..16]
  }

  function Init(pmk: seq<bv8>, aa: seq<bv8>, spa: seq<bv8>): (s: Sm)
    requires |aa| == |spa| == 6
    ensures Shaped(s)
  {
    Sm(pmk, aa, spa, Zeros(48), Zeros(32), Zeros(32), None, None, false, Idle, [])
  }

  // ---- The messages ----

  predicate Has(info: nat, bit: nat)
    requires bit > 0
  {
    info / bit % 2 == 1
  }

  datatype Message = Msg1(k: Key) | Msg3(k: Key) | Group1(k: Key) | Other

  predicate KeyShaped(k: Key) {
    |k.replay| == 8 && |k.nonce| == 32 && KEY_FIXED <= k.frameLen
  }

  function Classify(frame: seq<bv8>): (m: Message)
    ensures !m.Other? ==> KeyShaped(m.k) && m.k.frameLen <= |frame| <= EAPOL_MAX
  {
    if |frame| > EAPOL_MAX then Other else
    match Parse(frame)
    case None => Other
    case Some(k) =>
      var i := k.keyInfo;
      if !Has(i, ACK) || i % 8 != 2 then Other
      else if Has(i, PAIRWISE) then
        if !Has(i, MIC) && !Has(i, INSTALL) then Msg1(k)
        else if Has(i, MIC) && Has(i, INSTALL) then Msg3(k)
        else Other
      else if Has(i, MIC) && Has(i, SECURE) then Group1(k)
      else Other
  }

  predicate ReplayOk(s: Sm, replay: seq<bv8>)
    requires Shaped(s) && |replay| == 8
  {
    s.replay.None? || Less(s.replay.value, replay)
  }

  function UnwrapGtk(kek: seq<bv8>, k: Key): (g: Option<Gtk>)
    requires |kek| == 16
    ensures g.Some? ==> |g.value.key| == 16
  {
    var n := |k.keyData|;
    if !Has(k.keyInfo, ENCRYPTED) || n < 24 || n % 8 != 0 || n - 8 > KEY_DATA_MAX then None else
    match Unwrap(kek, k.keyData)
    case None => None
    case Some(plain) => FindGtk(plain, 0)
  }

  // ---- The calls of the ops ----

  /** A stage of the handling: the state after it, and whether to go on. */
  datatype Stage = Stage(sm: Sm, ok: bool)

  function Reply(cf: Compress, s: Sm, info: nat, replay: seq<bv8>, nonce: seq<bv8>, keyData: seq<bv8>)
    : (f: Option<seq<bv8>>)
    requires Shaped(s) && |replay| == 8 && |nonce| == 32
    ensures f.Some? <==> KEY_FIXED + |keyData| <= EAPOL_MAX
  {
    Build(cf, EAPOL_MAX, info, 0, replay, nonce, keyData, Some(Kck(s)))
  }

  function Transmit(s: Sm, f: Option<seq<bv8>>, ok: bool): (r: Stage)
    requires Shaped(s)
    ensures Shaped(r.sm)
  {
    if f.None? then Stage(s, false) else Stage(s.(trace := s.trace + [Send(f.value, ok)]), ok)
  }

  function SendKey(cf: Compress, s: Sm, info: nat, replay: seq<bv8>, nonce: seq<bv8>, keyData: seq<bv8>, ok: bool)
    : (r: Stage)
    requires Shaped(s) && |replay| == 8 && |nonce| == 32
    ensures Shaped(r.sm)
  {
    Transmit(s, Reply(cf, s, info, replay, nonce, keyData), ok)
  }

  function InstallPtkOnce(s: Sm, ok: bool): (r: Stage)
    requires Shaped(s)
    ensures Shaped(r.sm)
  {
    if s.ptkInstalled then Stage(s, true)
    else Stage(s.(ptkInstalled := ok, trace := s.trace + [InstallPtk(s.ptk[32..], ok)]), ok)
  }

  function InstallGtkOnce(s: Sm, g: Gtk, ok: bool): (r: Stage)
    requires Shaped(s)
    ensures Shaped(r.sm)
  {
    if s.gtk == Some(g) then Stage(s, true)
    else Stage(s.(gtk := if ok then Some(g) else s.gtk, trace := s.trace + [InstallGtk(g, ok)]), ok)
  }

  function Open(s: Sm, ok: bool): (r: Stage)
    requires Shaped(s)
    ensures Shaped(r.sm)
  {
    Stage(s.(phase := if ok then Established else s.phase, trace := s.trace + [OpenPort(ok)]), ok)
  }

  // ---- The three messages ----

  datatype Out = Out(sm: Sm, result: Result)

  /** The nonces and the PTK for a message 1: kept when it repeats the one that was answered. */
  function TakeNonce(cf: Compress, s: Sm, anonce: seq<bv8>, random: Nonce): (t: Sm)
    requires Shaped(s) && |anonce| == 32
    ensures Shaped(t)
  {
    if s.phase == GotMsg1 && s.anonce == anonce then s
    else s.(anonce := anonce, snonce := random, ptk := Ptk(cf, s.pmk, s.aa, s.spa, anonce, random))
  }

  function OnMsg1(cf: Compress, s: Sm, k: Key, a: Answers): (o: Out)
    requires Shaped(s) && KeyShaped(k)
    ensures Shaped(o.sm)
  {
    if s.ptkInstalled then Out(s, Ignored) else
    var t := TakeNonce(cf, s, k.nonce, a.random);
    var sent := SendKey(cf, t, MSG2, k.replay, t.snonce, RSN_IE, a.send);
    if !sent.ok then Out(sent.sm, Failed) else Out(sent.sm.(phase := GotMsg1), Progress)
  }

  /** Authentic, with a larger counter than the last frame that moved the baseline. */
  predicate Fresh(cf: Compress, s: Sm, k: Key, frame: seq<bv8>)
    requires Shaped(s) && KeyShaped(k) && k.frameLen <= |frame|
  {
    MicOk(cf, Kck(s), frame[..k.frameLen]) && ReplayOk(s, k.replay)
  }

  /** Once a reply is out: the keys, then, the first time, the port. */
  function FinishMsg3(s: Sm, g: Gtk, a: Answers): (o: Out)
    requires Shaped(s)
    ensures Shaped(o.sm)
  {
    var pairwise := InstallPtkOnce(s, a.ptk);
    if !pairwise.ok then Out(pairwise.sm, Failed) else
    var group := InstallGtkOnce(pairwise.sm, g, a.gtk);
    if !group.ok then Out(group.sm, Failed) else
    if s.phase == Established then Out(group.sm, Progress) else
    var port := Open(group.sm, a.port);
    Out(port.sm, if port.ok then Done else Failed)
  }

  function OnMsg3(cf: Compress, s: Sm, k: Key, frame: seq<bv8>, a: Answers): (o: Out)
    requires Shaped(s) && KeyShaped(k) && k.frameLen <= |frame|
    ensures Shaped(o.sm)
  {
    if s.phase == Idle || !Fresh(cf, s, k, frame) || k.nonce != s.anonce || k.keyLength != 16 then Out(s, Ignored) else
    var g := UnwrapGtk(s.ptk[16..32], k);
    if g.None? then Out(s, Failed) else
    var sent := SendKey(cf, s.(replay := Some(k.replay)), MSG4, k.replay, ZERO_NONCE, [], a.send);
    if !sent.ok then Out(sent.sm, Failed) else FinishMsg3(sent.sm, g.value, a)
  }

  function FinishGroup1(s: Sm, g: Gtk, a: Answers): (o: Out)
    requires Shaped(s)
    ensures Shaped(o.sm)
  {
    var group := InstallGtkOnce(s, g, a.gtk);
    Out(group.sm, if group.ok then Progress else Failed)
  }

  function OnGroup1(cf: Compress, s: Sm, k: Key, frame: seq<bv8>, a: Answers): (o: Out)
    requires Shaped(s) && KeyShaped(k) && k.frameLen <= |frame|
    ensures Shaped(o.sm)
  {
    if s.phase != Established || !Fresh(cf, s, k, frame) then Out(s, Ignored) else
    var g := UnwrapGtk(s.ptk[16..32], k);
    if g.None? then Out(s, Failed) else
    var sent := SendKey(cf, s.(replay := Some(k.replay)), GROUP_MSG2, k.replay, ZERO_NONCE, [], a.send);
    if !sent.ok then Out(sent.sm, Failed) else FinishGroup1(sent.sm, g.value, a)
  }

  function Step(cf: Compress, s: Sm, frame: seq<bv8>, a: Answers): (o: Out)
    requires Shaped(s)
    ensures Shaped(o.sm)
  {
    match Classify(frame)
    case Msg1(k) => OnMsg1(cf, s, k, a)
    case Msg3(k) => OnMsg3(cf, s, k, frame, a)
    case Group1(k) => OnGroup1(cf, s, k, frame, a)
    case Other => Out(s, Ignored)
  }

  /** A bit is set exactly when it is in the binary expansion. */
  lemma HasIs(q: nat, bit: nat, r: nat)
    requires r < bit
    ensures Has((2 * q + 1) * bit + r, bit) && !Has(2 * q * bit + r, bit)
  {
    hide Has;
    HasQuotient((2 * q + 1) * bit + r, 2 * q + 1, bit, r);
    HasQuotient(2 * q * bit + r, 2 * q, bit, r);
  }

  lemma HasQuotient(x: nat, k: nat, bit: nat, r: nat)
    requires r < bit && x == k * bit + r
    ensures Has(x, bit) <==> k % 2 == 1
  {
    DivModUnique(x, k, bit, r);
  }

  /** The classes by the bits of the key information. */
  lemma ClassifyHas(frame: seq<bv8>, k: Key)
    requires |frame| <= EAPOL_MAX && Parse(frame) == Some(k)
    ensures
      var i, m := k.keyInfo, Classify(frame);
      var forUs := Has(i, ACK) && i % 8 == 2;
      && (m.Msg1? <==> forUs && Has(i, PAIRWISE) && !Has(i, INSTALL) && !Has(i, MIC))
      && (m.Msg3? <==> forUs && Has(i, PAIRWISE) && Has(i, INSTALL) && Has(i, MIC))
      && (m.Group1? <==> forUs && !Has(i, PAIRWISE) && Has(i, MIC) && Has(i, SECURE))
      && (!m.Other? ==> m.k == k)
  {
    hide Parse, Has;
  }

  /** The classes by the bits of the two bytes of the key information field. */
  lemma ClassifyBits(frame: seq<bv8>, k: Key, hi: nat, lo: nat)
    requires |frame| <= EAPOL_MAX && Parse(frame) == Some(k)
    requires hi < 256 && lo < 256 && k.keyInfo == hi * 256 + lo
    ensures
      var m, forUs := Classify(frame), Has(lo, 0x80) && lo % 8 == 2;
      var pairwise, install, mic, secure := Has(lo, 0x08), Has(lo, 0x40), Has(hi, 0x01), Has(hi, 0x02);
      && (m.Msg1? <==> forUs && pairwise && !install && !mic)
      && (m.Msg3? <==> forUs && pairwise && install && mic)
      && (m.Group1? <==> forUs && !pairwise && mic && secure)
      && (!m.Other? ==> m.k == k)
  {
    hide Parse, Has, Classify;
    ClassifyHas(frame, k);
    InfoBits(hi, lo);
  }

  /** Where the bits of the field stand in its two bytes. */
  lemma InfoBits(hi: nat, lo: nat)
    requires hi < 256 && lo < 256
    ensures
      var info := hi * 256 + lo;
      && (Has(info, ACK) <==> Has(lo, 0x80)) && info % 8 == lo % 8
      && (Has(info, PAIRWISE) <==> Has(lo, 0x08)) && (Has(info, INSTALL) <==> Has(lo, 0x40))
      && (Has(info, MIC) <==> Has(hi, 0x01)) && (Has(info, SECURE) <==> Has(hi, 0x02))
      && (Has(info, ENCRYPTED) <==> Has(hi, 0x10))
  {
    AddMultiple(hi * 2, lo, 0x80);
    AddMultiple(hi * 4, lo, 0x40);
    AddMultiple(hi * 32, lo, 0x08);
    AddMultiple(hi, lo, 0x100);
    HighBit(hi, lo, 0x02);
    HighBit(hi, lo, 0x10);
    AddMultiple(hi, lo / 0x80, 2);
    AddMultiple(hi * 2, lo / 0x40, 2);
    AddMultiple(hi * 16, lo / 0x08, 2);
  }

  lemma HighBit(hi: nat, lo: nat, bit: nat)
    requires bit > 0 && lo < 256
    ensures (hi * 256 + lo) / (bit * 0x100) == hi / bit
  {
    var q, r := hi / bit, hi % bit;
    DivMod(hi, bit);
    assert r * 256 + lo < bit * 256;
    assert hi * 256 + lo == q * (bit * 0x100) + (r * 256 + lo);
    DivModUnique(hi * 256 + lo, q, bit * 0x100, r * 256 + lo);
  }

  // ---- What a trace shows ----

  /** The temporal keys that were installed, in order. */
  function Tks(t: seq<Op>): seq<seq<bv8>> {
    if t == [] then [] else
    var op := t[|t| - 1];
    Tks(t[..|t| - 1]) + if op.InstallPtk? && op.ok then [op.tk] else []
  }

  /** The group keys that were installed, in order. */
  function Gtks(t: seq<Op>): seq<Gtk> {
    if t == [] then [] else
    var op := t[|t| - 1];
    Gtks(t[..|t| - 1]) + if op.InstallGtk? && op.ok then [op.gtk] else []
  }

  /** How often the port was opened. */
  function Opens(t: seq<Op>): nat {
    if t == [] then 0 else Opens(t[..|t| - 1]) + if t[|t| - 1] == OpenPort(true) then 1 else 0
  }

  lemma TraceSnoc(t: seq<Op>, op: Op)
    ensures Tks(t + [op]) == Tks(t) + if op.InstallPtk? && op.ok then [op.tk] else []
    ensures Gtks(t + [op]) == Gtks(t) + if op.InstallGtk? && op.ok then [op.gtk] else []
    ensures Opens(t + [op]) == Opens(t) + if op == OpenPort(true) then 1 else 0
  {
    assert (t + [op])[..|t|] == t;
  }

  /** The port opens only with both keys in. */
  ghost predicate OpensWithKeys(t: seq<Op>) {
    forall i :: 0 <= i < |t| && t[i] == OpenPort(true) ==> Tks(t[..i]) != [] && Gtks(t[..i]) != []
  }

  /** A temporal key goes in right after a reply went out, never before. */
  ghost predicate SendsFirst(t: seq<Op>) {
    forall i :: 0 <= i < |t| && t[i].InstallPtk? ==> i > 0 && t[i - 1].Send? && t[i - 1].ok
  }

  ghost predicate NoRepeat(g: seq<Gtk>) {
    forall i :: 0 < i < |g| ==> g[i] != g[i - 1]
  }

  ghost predicate TraceOk(t: seq<Op>) {
    NoRepeat(Gtks(t)) && OpensWithKeys(t) && SendsFirst(t)
  }

  ghost predicate JustSent(t: seq<Op>) {
    |t| > 0 && t[|t| - 1].Send? && t[|t| - 1].ok
  }

  /** What an op may follow. */
  lemma TraceGrows(t: seq<Op>, op: Op)
    requires TraceOk(t)
    requires op == OpenPort(true) ==> Tks(t) != [] && Gtks(t) != []
    requires op.InstallPtk? ==> JustSent(t)
    requires op.InstallGtk? ==> Newest(Gtks(t)) != Some(op.gtk)
    ensures TraceOk(t + [op])
    ensures Tks(t + [op]) == Tks(t) + if op.InstallPtk? && op.ok then [op.tk] else []
    ensures Gtks(t + [op]) == Gtks(t) + if op.InstallGtk? && op.ok then [op.gtk] else []
    ensures Opens(t + [op]) == Opens(t) + if op == OpenPort(true) then 1 else 0
  {
    hide Tks, Gtks, Opens;
    TraceSnoc(t, op);
    Prefixes(t, op);
  }

  lemma Prefixes(t: seq<Op>, op: Op)
    ensures forall i :: 0 <= i <= |t| ==> (t + [op])[..i] == t[..i]
    ensures t[..|t|] == t
  {
  }

  ghost predicate Inv(s: Sm) {
    && Shaped(s)
    && Tks(s.trace) == (if s.ptkInstalled then [s.ptk[32..]] else [])
    && Opens(s.trace) == (if s.phase == Established then 1 else 0)
    && (s.phase == Established ==> s.ptkInstalled && s.gtk.Some?)
    && s.gtk == Newest(Gtks(s.trace))
    && TraceOk(s.trace)
  }

  function Newest(g: seq<Gtk>): Option<Gtk> {
    if g == [] then None else Some(g[|g| - 1])
  }

  lemma TransmitKeeps(s: Sm, f: Option<seq<bv8>>, ok: bool)
    requires Inv(s)
    ensures var r := Transmit(s, f, ok); Inv(r.sm) && r.sm == s.(trace := r.sm.trace) && (r.ok ==> JustSent(r.sm.trace))
  {
    hide Tks, Gtks, Opens, TraceOk;
    if f.Some? {
      TraceGrows(s.trace, Send(f.value, ok));
    }
  }

  lemma InstallPtkKeeps(s: Sm, ok: bool)
    requires Inv(s) && JustSent(s.trace)
    ensures var r := InstallPtkOnce(s, ok); Inv(r.sm) && (r.ok ==> r.sm.ptkInstalled)
  {
    hide Tks, Gtks, Opens, TraceOk;
    if !s.ptkInstalled {
      TraceGrows(s.trace, InstallPtk(s.ptk[32..], ok));
    }
  }

  lemma InstallGtkKeeps(s: Sm, g: Gtk, ok: bool)
    requires Inv(s)
    ensures var r := InstallGtkOnce(s, g, ok); Inv(r.sm) && (r.ok ==> r.sm.gtk == Some(g))
  {
    hide Tks, Gtks, Opens, TraceOk;
    if s.gtk != Some(g) {
      TraceGrows(s.trace, InstallGtk(g, ok));
    }
  }

  lemma OpenKeeps(s: Sm, ok: bool)
    requires Inv(s) && s.phase != Established && s.ptkInstalled && s.gtk.Some?
    ensures Inv(Open(s, ok).sm)
  {
    hide Tks, Gtks, Opens, TraceOk;
    TraceGrows(s.trace, OpenPort(ok));
  }

  lemma FinishMsg3Keeps(s: Sm, g: Gtk, a: Answers)
    requires Inv(s) && JustSent(s.trace)
    ensures
      var o := FinishMsg3(s, g, a);
      && Inv(o.sm) && s.trace <= o.sm.trace && o.result != Ignored
      && Opens(o.sm.trace) == Opens(s.trace) + (if o.result == Done then 1 else 0)
      && (s.ptkInstalled ==> o.sm.ptkInstalled) && (s.phase == Established ==> o.sm.phase == Established)
      && o.sm == s.(ptkInstalled := o.sm.ptkInstalled, gtk := o.sm.gtk, phase := o.sm.phase, trace := o.sm.trace)
  {
    hide Tks, Gtks, Opens, TraceOk, Newest;
    InstallPtkKeeps(s, a.ptk);
    var pairwise := InstallPtkOnce(s, a.ptk);
    if pairwise.ok {
      InstallGtkKeeps(pairwise.sm, g, a.gtk);
      var group := InstallGtkOnce(pairwise.sm, g, a.gtk);
      if group.ok && s.phase != Established {
        OpenKeeps(group.sm, a.port);
      }
    }
  }

  lemma FinishGroup1Keeps(s: Sm, g: Gtk, a: Answers)
    requires Inv(s)
    ensures
      var o := FinishGroup1(s, g, a);
      && Inv(o.sm) && s.trace <= o.sm.trace && o.result in {Progress, Failed}
      && Opens(s.trace) == Opens(o.sm.trace) && o.sm == s.(gtk := o.sm.gtk, trace := o.sm.trace)
  {
    hide Tks, Gtks, Opens, TraceOk, Newest;
    InstallGtkKeeps(s, g, a.gtk);
  }

  // ---- What every step keeps ----

  /** Nothing is taken back: keys that are in stay as they are, the port stays open, the trace only grows. */
  ghost predicate Follows(s: Sm, t: Sm) {
    && t.pmk == s.pmk && t.aa == s.aa && t.spa == s.spa
    && s.trace <= t.trace
    && (s.ptkInstalled ==> t.ptkInstalled && t.ptk == s.ptk && t.anonce == s.anonce && t.snonce == s.snonce)
    && (s.phase == Established ==> t.phase == Established)
  }

  /** The frame was taken as a message 3 or group message 1: it got an answer. */
  predicate Accepts(cf: Compress, s: Sm, frame: seq<bv8>, a: Answers)
    requires Shaped(s)
  {
    (Classify(frame).Msg3? || Classify(frame).Group1?) && Step(cf, s, frame, a).sm.trace != s.trace
  }

  ghost predicate StepOk(s: Sm, o: Out) {
    && Inv(o.sm) && Follows(s, o.sm)
    && (o.result == Ignored ==> o.sm == s)
    && Opens(o.sm.trace) == Opens(s.trace) + (if o.result == Done then 1 else 0)
  }

  ghost predicate ReplayMoves(s: Sm, o: Out, replay: seq<bv8>)
    requires Shaped(s) && |replay| == 8
  {
    if o.sm.trace == s.trace then o.sm.replay == s.replay
    else ReplayOk(s, replay) && o.sm.replay == Some(replay)
  }

  lemma Msg1Keeps(cf: Compress, s: Sm, k: Key, a: Answers)
    requires Inv(s) && KeyShaped(k)
    ensures StepOk(s, OnMsg1(cf, s, k, a)) && OnMsg1(cf, s, k, a).sm.replay == s.replay
  {
    hide Tks, Gtks, Opens, TraceOk, Newest, Ptk, Reply;
    if !s.ptkInstalled {
      var t := TakeNonce(cf, s, k.nonce, a.random);
      assert Inv(t);
      var f := Reply(cf, t, MSG2, k.replay, t.snonce, RSN_IE);
      TransmitKeeps(t, f, a.send);
    }
  }

  lemma Msg3Keeps(cf: Compress, s: Sm, k: Key, frame: seq<bv8>, a: Answers)
    requires Inv(s) && KeyShaped(k) && k.frameLen <= |frame|
    ensures StepOk(s, OnMsg3(cf, s, k, frame, a)) && ReplayMoves(s, OnMsg3(cf, s, k, frame, a), k.replay)
  {
    hide Tks, Gtks, Opens, TraceOk, Newest, Reply, MicOk, FinishMsg3, UnwrapGtk, ReplayOk, Kck;
    if !(s.phase == Idle || !Fresh(cf, s, k, frame) || k.nonce != s.anonce || k.keyLength != 16) {
      var g := UnwrapGtk(s.ptk[16..32], k);
      if g.Some? {
        var noted := s.(replay := Some(k.replay));
        assert Inv(noted);
        var f := Reply(cf, noted, MSG4, k.replay, ZERO_NONCE, []);
        TransmitKeeps(noted, f, a.send);
        var sent := Transmit(noted, f, a.send);
        if sent.ok {
          FinishMsg3Keeps(sent.sm, g.value, a);
        }
      }
    }
  }

  lemma Group1Keeps(cf: Compress, s: Sm, k: Key, frame: seq<bv8>, a: Answers)
    requires Inv(s) && KeyShaped(k) && k.frameLen <= |frame|
    ensures StepOk(s, OnGroup1(cf, s, k, frame, a)) && ReplayMoves(s, OnGroup1(cf, s, k, frame, a), k.replay)
  {
    hide Tks, Gtks, Opens, TraceOk, Newest, Reply, MicOk, FinishGroup1, UnwrapGtk, ReplayOk, Kck;
    if s.phase == Established && Fresh(cf, s, k, frame) {
      var g := UnwrapGtk(s.ptk[16..32], k);
      if g.Some? {
        var noted := s.(replay := Some(k.replay));
        assert Inv(noted);
        var f := Reply(cf, noted, GROUP_MSG2, k.replay, ZERO_NONCE, []);
        TransmitKeeps(noted, f, a.send);
        var sent := Transmit(noted, f, a.send);
        if sent.ok {
          FinishGroup1Keeps(sent.sm, g.value, a);
        }
      }
    }
  }

  /**
   * Every frame and every pattern of answers: the invariant holds, nothing is taken back, an ignored frame changes
   * nothing and calls no op, Done is reported exactly when the port opens, and the replay baseline moves exactly to
   * the counter of an accepted frame, which is larger; message 1 never moves it.
   */
  lemma StepKeeps(cf: Compress, s: Sm, frame: seq<bv8>, a: Answers)
    requires Inv(s)
    ensures StepOk(s, Step(cf, s, frame, a))
    ensures !Accepts(cf, s, frame, a) ==> Step(cf, s, frame, a).sm.replay == s.replay
    ensures Accepts(cf, s, frame, a) ==>
      ReplayOk(s, Classify(frame).k.replay) && Step(cf, s, frame, a).sm.replay == Some(Classify(frame).k.replay)
  {
    hide Classify, Inv, OnMsg1, OnMsg3, OnGroup1, ReplayOk;
    match Classify(frame)
    case Msg1(k) => Msg1Keeps(cf, s, k, a);
    case Msg3(k) => Msg3Keeps(cf, s, k, frame, a);
    case Group1(k) => Group1Keeps(cf, s, k, frame, a);
    case Other =>
  }

  /** What a message 3 or group message 1 has to pass, beyond being fresh, to be answered. */
  predicate Usable(s: Sm, m: Message)
    requires Shaped(s)
  {
    match m
    case Msg3(k) => s.phase != Idle && k.nonce == s.anonce && k.keyLength == 16 && UnwrapGtk(s.ptk[16..32], k).Some?
    case Group1(k) => s.phase == Established && UnwrapGtk(s.ptk[16..32], k).Some?
    case _ => false
  }

  /**
   * The baseline moves exactly for a fresh frame that is usable, and then to its counter. A fresh frame that is not,
   * such as an authentic one whose key data does not unwrap, leaves it alone and can be sent again.
   */
  lemma BaselineMoves(cf: Compress, s: Sm, frame: seq<bv8>, a: Answers)
    requires Shaped(s)
    ensures
      var m, t := Classify(frame), Step(cf, s, frame, a).sm;
      && (t.replay != s.replay <==> Usable(s, m) && Fresh(cf, s, m.k, frame))
      && (t.replay != s.replay ==> t.replay == Some(m.k.replay))
  {
    hide Classify, MicOk, UnwrapGtk, Reply, Ptk, Less;
    var m := Classify(frame);
    if (m.Msg3? || m.Group1?) && s.replay.Some? {
      LessTotal(s.replay.value, m.k.replay);
    }
  }

  // ---- Whole runs ----

  datatype Input = Input(frame: seq<bv8>, answers: Answers)

  /** The state after a run, the result for every frame, and the counters of the accepted frames in order. */
  datatype History = History(sm: Sm, results: seq<Result>, accepted: seq<seq<bv8>>)

  function Run(cf: Compress, s: Sm, inputs: seq<Input>): (h: History)
    requires Shaped(s)
    ensures Shaped(h.sm) && |h.results| == |inputs|
    ensures forall i :: 0 <= i < |h.accepted| ==> |h.accepted[i]| == 8
  {
    if inputs == [] then History(s, [], []) else
    var h, x := Run(cf, s, inputs[..|inputs| - 1]), inputs[|inputs| - 1];
    var o := Step(cf, h.sm, x.frame, x.answers);
    History(o.sm, h.results + [o.result],
            if Accepts(cf, h.sm, x.frame, x.answers) then h.accepted + [Classify(x.frame).k.replay] else h.accepted)
  }

  function Dones(results: seq<Result>): nat {
    if results == [] then 0 else
    Dones(results[..|results| - 1]) + if results[|results| - 1] == Done then 1 else 0
  }

  /** The counters grow as the 64-bit big-endian numbers they are. */
  ghost predicate Increasing(c: seq<seq<bv8>>) {
    forall i, j :: 0 <= i < j < |c| ==> Number(c[i]) < Number(c[j])
  }

  ghost predicate HistoryOk(h: History) {
    && Inv(h.sm)
    && Dones(h.results) == Opens(h.sm.trace)
    && Increasing(h.accepted)
    && h.sm.replay == (if h.accepted == [] then None else Some(h.accepted[|h.accepted| - 1]))
  }

  lemma LessFront(a: seq<bv8>, b: seq<bv8>)
    requires |a| == |b| > 0
    ensures Less(a, b) <==> a[0] < b[0] || (a[0] == b[0] && Less(a[1..], b[1..]))
  {
  }

  lemma FrontAndBack(a: seq<bv8>)
    requires |a| > 1
    ensures
      var n := |a| - 1;
      a[1..][..n - 1] == a[..n][1..] && a[..n] == [a[0]] + a[..n][1..] && a[1..][n - 1] == a[n] && a[..n][0] == a[0]
  {
  }

  lemma OneByte(a: seq<bv8>, b: seq<bv8>)
    requires |a| == |b| == 1
    ensures Less(a, b) <==> a[0] < b[0]
    ensures !Less(a[..0], b[..0]) && a[..0] == b[..0]
  {
  }

  lemma {:induction false} LessBack(a: seq<bv8>, b: seq<bv8>)
    requires |a| == |b| > 0
    ensures
      var n := |a| - 1;
      Less(a, b) <==> Less(a[..n], b[..n]) || (a[..n] == b[..n] && a[n] < b[n])
  {
    hide Less;
    var n := |a| - 1;
    if n > 0 {
      LessBack(a[1..], b[1..]);
      FrontAndBack(a);
      FrontAndBack(b);
      LessFront(a, b);
      LessFront(a[..n], b[..n]);
    } else {
      OneByte(a, b);
    }
  }

  lemma ByteOrder(x: bv8, y: bv8)
    ensures x < y <==> x as int < y as int
    ensures x == y <==> x as int == y as int
  {
  }

  /** memcmp() orders counters as the numbers they stand for. */
  lemma {:induction false} LessIsNumeric(a: seq<bv8>, b: seq<bv8>)
    requires |a| == |b|
    ensures Less(a, b) <==> Number(a) < Number(b)
    decreases |a|
  {
    hide Less, Number;
    if a == [] {
      LessTotal(a, b);
    } else {
      var n := |a| - 1;
      NumberBack(a);
      NumberBack(b);
      LessBack(a, b);
      LessIsNumeric(a[..n], b[..n]);
      LessIsNumeric(b[..n], a[..n]);
      LessTotal(a[..n], b[..n]);
      ByteOrder(a[n], b[n]);
      Digits(Number(a[..n]), a[n] as int, Number(b[..n]), b[n] as int);
    }
  }

  lemma Digits(x: nat, i: nat, y: nat, j: nat)
    requires i < 256 && j < 256
    ensures x * 256 + i < y * 256 + j <==> x < y || (x == y && i < j)
  {
  }

  lemma {:induction false} RunKeeps(cf: Compress, pmk: seq<bv8>, aa: seq<bv8>, spa: seq<bv8>, inputs: seq<Input>)
    requires |aa| == |spa| == 6
    ensures HistoryOk(Run(cf, Init(pmk, aa, spa), inputs))
  {
    hide Step, Classify, Number, Less, Tks, Gtks, Opens, TraceOk, Newest, Increasing, Dones;
    StartOk(pmk, aa, spa);
    hide Inv, Init;
    if inputs != [] {
      var before, x := inputs[..|inputs| - 1], inputs[|inputs| - 1];
      RunKeeps(cf, pmk, aa, spa, before);
      var h := Run(cf, Init(pmk, aa, spa), before);
      StepKeeps(cf, h.sm, x.frame, x.answers);
      var o := Step(cf, h.sm, x.frame, x.answers);
      DonesSnoc(h.results, o.result);
      if Accepts(cf, h.sm, x.frame, x.answers) {
        CountOn(h.accepted, h.sm, Classify(x.frame).k.replay);
      }
    }
  }

  lemma StartOk(pmk: seq<bv8>, aa: seq<bv8>, spa: seq<bv8>)
    requires |aa| == |spa| == 6
    ensures HistoryOk(History(Init(pmk, aa, spa), [], []))
  {
  }

  lemma CountOn(accepted: seq<seq<bv8>>, s: Sm, replay: seq<bv8>)
    requires Increasing(accepted) && Shaped(s) && |replay| == 8 && ReplayOk(s, replay)
    requires s.replay == if accepted == [] then None else Some(accepted[|accepted| - 1])
    ensures Increasing(accepted + [replay])
  {
    hide Number, Less;
    if accepted != [] {
      LessIsNumeric(s.replay.value, replay);
    }
  }

  lemma DonesSnoc(r: seq<Result>, x: Result)
    ensures Dones(r + [x]) == Dones(r) + if x == Done then 1 else 0
  {
    assert (r + [x])[..|r|] == r;
  }

  // ---- The main results ----

  /**
   * Safety over every frame sequence and every pattern of op failures: at most one temporal key is ever installed,
   * and only behind a reply; the port opens at most once, with both keys in; Done is reported at most once and for
   * exactly the frame that opened the port; no group key is installed twice in a row; the counters of accepted
   * frames only ever grow.
   */
  lemma RunIsSafe(cf: Compress, pmk: seq<bv8>, aa: seq<bv8>, spa: seq<bv8>, inputs: seq<Input>)
    requires |aa| == |spa| == 6
    ensures
      var h := Run(cf, Init(pmk, aa, spa), inputs);
      && |Tks(h.sm.trace)| <= 1 && SendsFirst(h.sm.trace)
      && Opens(h.sm.trace) <= 1 && OpensWithKeys(h.sm.trace)
      && Dones(h.results) == Opens(h.sm.trace)
      && NoRepeat(Gtks(h.sm.trace))
      && Increasing(h.accepted)
      && (inputs != [] ==>
            (h.results[|inputs| - 1] == Done <==>
             Opens(Run(cf, Init(pmk, aa, spa), inputs[..|inputs| - 1]).sm.trace) < Opens(h.sm.trace)))
  {
    hide Step, Number, Tks, Gtks, Opens, Init;
    RunKeeps(cf, pmk, aa, spa, inputs);
    if inputs != [] {
      var before, x := inputs[..|inputs| - 1], inputs[|inputs| - 1];
      RunKeeps(cf, pmk, aa, spa, before);
      StepKeeps(cf, Run(cf, Init(pmk, aa, spa), before).sm, x.frame, x.answers);
    }
  }

  /** From the moment a temporal key is in, it and the nonces behind it never change again. */
  lemma {:induction false} PtkIsFinal(cf: Compress, pmk: seq<bv8>, aa: seq<bv8>, spa: seq<bv8>, inputs: seq<Input>,
                                      i: nat)
    requires |aa| == |spa| == 6 && i <= |inputs|
    ensures Follows(Run(cf, Init(pmk, aa, spa), inputs[..i]).sm, Run(cf, Init(pmk, aa, spa), inputs).sm)
    decreases |inputs|
  {
    hide Step, Init, Inv;
    if i == |inputs| {
      assert inputs[..i] == inputs;
    } else {
      var before, x := inputs[..|inputs| - 1], inputs[|inputs| - 1];
      assert before[..i] == inputs[..i];
      PtkIsFinal(cf, pmk, aa, spa, before, i);
      RunKeeps(cf, pmk, aa, spa, before);
      StepKeeps(cf, Run(cf, Init(pmk, aa, spa), before).sm, x.frame, x.answers);
    }
  }
}
