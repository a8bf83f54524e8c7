/**
 * The station against an honest authenticator with the same PMK and one ANonce: whatever happens to the message 1
 * frames and their answers, the first message 3 leaves both sides with the same keys.
 */
module Handshake {
  import opened Wrappers
  import opened Octets
  import opened Sha1
  import opened Kdf
  import opened KeyWrap
  import opened Eapol
  import opened Wpa2Sm

  /** The two sides and what they share. */
  datatype Pair = Pair(pmk: seq<bv8>, aa: seq<bv8>, spa: seq<bv8>, anonce: seq<bv8>)

  predicate PairOk(p: Pair) {
    |p.aa| == |p.spa| == 6 && |p.anonce| == 32
  }

  function AllSucceed(random: Nonce): Answers {
    Answers(true, true, true, true, random)
  }

  // ---- Message 1 and message 2 ----

  /**
   * A frame of the time before message 3: a message 1 with the authenticator's ANonce and any other content, a frame
   * that is not for us, or a forged message 3 or group message 1, one without a key to check it or that fails its MIC.
   */
  predicate Early(cf: Compress, p: Pair, s: Sm, frame: seq<bv8>)
    requires Wpa2Sm.Shaped(s)
  {
    match Classify(frame)
    case Msg1(k) => k.nonce == p.anonce
    case Msg3(k) => s.phase == Idle || !MicOk(cf, Kck(s), frame[..k.frameLen])
    case Group1(k) => s.phase == Idle || !MicOk(cf, Kck(s), frame[..k.frameLen])
    case Other => true
  }

  /** A run of such frames. */
  ghost predicate EarlyRun(cf: Compress, p: Pair, inputs: seq<Input>)
    requires PairOk(p)
  {
    inputs == [] ||
    var front, x := inputs[..|inputs| - 1], inputs[|inputs| - 1];
    EarlyRun(cf, p, front) && Early(cf, p, Run(cf, Init(p.pmk, p.aa, p.spa), front).sm, x.frame)
  }

  /** A message 2: made with the key and carrying the nonce. */
  ghost predicate IsMsg2(cf: Compress, f: seq<bv8>, kck: seq<bv8>, snonce: seq<bv8>) {
    && MicOk(cf, kck, f)
    && Parse(f).Some?
    && var k := Parse(f).value; k.keyInfo == MSG2 && k.nonce == snonce && k.keyData == RSN_IE && k.frameLen == |f|
  }

  ghost predicate FirstPhase(cf: Compress, p: Pair, s: Sm) {
    && PairOk(p) && Wpa2Sm.Shaped(s)
    && s.pmk == p.pmk && s.aa == p.aa && s.spa == p.spa
    && s.replay == None && s.gtk == None && !s.ptkInstalled && s.phase != Established
    && (s.phase == GotMsg1 ==> s.anonce == p.anonce && s.ptk == Ptk(cf, p.pmk, p.aa, p.spa, p.anonce, s.snonce))
    && (forall i :: 0 <= i < |s.trace| ==> s.trace[i].Send?)
    && (forall i, j :: 0 <= i <= j < |s.trace| && s.trace[i].ok ==>
          s.phase == GotMsg1 && IsMsg2(cf, s.trace[j].frame, Kck(s), s.snonce))
  }

  /** What wpa2_eapol_build() makes parses back to its fields and passes the MIC check. */
  lemma BuildParses(cf: Compress, size: nat, info: nat, keyLength: nat, replay: seq<bv8>, nonce: seq<bv8>,
                    keyData: seq<bv8>, kck: seq<bv8>, trailer: seq<bv8>)
    requires |replay| == 8 && |nonce| == 32 && KEY_FIXED + |keyData| <= size
    requires KEY_FIXED + |keyData| - HEADER_LEN < 0x1_0000
    requires info < 0x1_0000 && keyLength < 0x1_0000
    ensures
      var f := Build(cf, size, info, keyLength, replay, nonce, keyData, Some(kck)).value;
      && Parse(f + trailer) == Some(Key(info, keyLength, replay, nonce, keyData, |f|))
      && MicOk(cf, kck, f)
  {
    hide Frame, Hmac.Mac, Parse, MicOk;
    var blank := Frame(info, keyLength, replay, nonce, keyData, Zeros(MIC_LEN));
    ParseOfFrame(info, keyLength, replay, nonce, keyData, Hmac.Mac(cf, kck, blank)[..MIC_LEN], trailer);
    MicOfBuild(cf, size, info, keyLength, replay, nonce, keyData, kck);
  }

  /** A reply of the station parses to what it was asked to say, and carries the MIC of its PTK. */
  lemma ReplyParses(cf: Compress, s: Sm, info: nat, replay: seq<bv8>, nonce: seq<bv8>, keyData: seq<bv8>)
    requires Wpa2Sm.Shaped(s) && |replay| == 8 && |nonce| == 32 && info < 0x1_0000
    requires KEY_FIXED + |keyData| <= EAPOL_MAX
    ensures
      var f := Reply(cf, s, info, replay, nonce, keyData).value;
      Parse(f) == Some(Key(info, 0, replay, nonce, keyData, |f|)) && MicOk(cf, Kck(s), f)
  {
    hide Build, Parse, MicOk;
    BuildParses(cf, EAPOL_MAX, info, 0, replay, nonce, keyData, Kck(s), []);
    var f := Reply(cf, s, info, replay, nonce, keyData).value;
    assert f + [] == f;
  }

  /** The answer to a message 1: it repeats the counter, gives the nonce, and is made with the key. */
  ghost predicate Answers2(cf: Compress, op: Op, ptk: seq<bv8>, counter: seq<bv8>, snonce: seq<bv8>)
    requires |ptk| == 48
  {
    && op.Send?
    && Parse(op.frame) == Some(Key(0x010A, 0, counter, snonce, RSN_IE, |op.frame|))
    && MicOk(cf, ptk[..16], op.frame)
  }

  /**
   * Every message 1 to a station without a temporal key is answered by one message 2 with its counter; the nonces and
   * the PTK behind it are those of the last answer if the ANonce is the same, and new otherwise.
   */
  lemma AnswerToMsg1(cf: Compress, s: Sm, frame: seq<bv8>, a: Answers)
    requires Wpa2Sm.Shaped(s) && Classify(frame).Msg1?
    ensures s.ptkInstalled ==> Step(cf, s, frame, a) == Out(s, Ignored)
    ensures !s.ptkInstalled ==>
      var o, counter, anonce := Step(cf, s, frame, a), frame[9..17], frame[17..49];
      var t := o.sm;
      && |t.trace| == |s.trace| + 1 && t.trace[..|s.trace|] == s.trace
      && Answers2(cf, t.trace[|s.trace|], t.ptk, counter, t.snonce) && t.trace[|s.trace|].ok == a.send
      && t.anonce == anonce
      && (if s.phase == GotMsg1 && s.anonce == anonce then t.snonce == s.snonce && t.ptk == s.ptk
          else t.snonce == a.random && t.ptk == Ptk(cf, s.pmk, s.aa, s.spa, anonce, a.random))
      && o.result == (if a.send then Progress else Failed)
      && t == s.(anonce := anonce, snonce := t.snonce, ptk := t.ptk, trace := t.trace,
                 phase := if a.send then GotMsg1 else s.phase)
  {
    hide Parse, MicOk, Ptk, Reply, Has;
    var k := Classify(frame).k;
    ParseFields(frame);
    if !s.ptkInstalled {
      var t := TakeNonce(cf, s, k.nonce, a.random);
      ReplyParses(cf, t, MSG2, k.replay, t.snonce, RSN_IE);
      assert (s.trace + [Send(Reply(cf, t, MSG2, k.replay, t.snonce, RSN_IE).value, a.send)])[..|s.trace|] == s.trace;
    }
  }

  lemma ReplyIsMsg2(cf: Compress, s: Sm, replay: seq<bv8>)
    requires Wpa2Sm.Shaped(s) && |replay| == 8
    ensures IsMsg2(cf, Reply(cf, s, MSG2, replay, s.snonce, RSN_IE).value, Kck(s), s.snonce)
  {
    hide Reply, Parse, MicOk;
    ReplyParses(cf, s, MSG2, replay, s.snonce, RSN_IE);
  }

  lemma FirstPhaseStep(cf: Compress, p: Pair, s: Sm, x: Input)
    requires FirstPhase(cf, p, s) && Early(cf, p, s, x.frame)
    ensures FirstPhase(cf, p, Step(cf, s, x.frame, x.answers).sm)
  {
    hide Classify, Ptk, Reply, IsMsg2;
    if Classify(x.frame).Msg1? {
      var k := Classify(x.frame).k;
      var t := TakeNonce(cf, s, k.nonce, x.answers.random);
      ReplyIsMsg2(cf, t, k.replay);
    }
  }

  lemma {:induction false} FirstPhaseRun(cf: Compress, p: Pair, inputs: seq<Input>)
    requires PairOk(p) && EarlyRun(cf, p, inputs)
    ensures FirstPhase(cf, p, Run(cf, Init(p.pmk, p.aa, p.spa), inputs).sm)
  {
    hide Step, Early, IsMsg2;
    if inputs != [] {
      var before, x := inputs[..|inputs| - 1], inputs[|inputs| - 1];
      FirstPhaseRun(cf, p, before);
      hide Init, FirstPhase;
      FirstPhaseStep(cf, p, Run(cf, Init(p.pmk, p.aa, p.spa), before).sm, x);
    }
  }

  /**
   * Every message 2 from the first successful send on carries one SNonce, the station's, and is made with the PTK of
   * that nonce; before any success the station is still idle.
   */
  lemma OneSNonce(cf: Compress, p: Pair, inputs: seq<Input>)
    requires PairOk(p) && EarlyRun(cf, p, inputs)
    ensures
      var s := Run(cf, Init(p.pmk, p.aa, p.spa), inputs).sm;
      forall i, j :: 0 <= i <= j < |s.trace| && s.trace[i].ok ==>
        && s.trace[i].Send? && s.trace[j].Send?
        && IsMsg2(cf, s.trace[j].frame, Ptk(cf, p.pmk, p.aa, p.spa, p.anonce, s.snonce)[..16], s.snonce)
  {
    hide Run, Init, Ptk, IsMsg2, EarlyRun;
    FirstPhaseRun(cf, p, inputs);
  }

  /** The inputs that carry a message 1, in order. */
  function Asked(inputs: seq<Input>): (r: seq<Input>)
    ensures forall i :: 0 <= i < |r| ==> Classify(r[i].frame).Msg1?
  {
    if inputs == [] then [] else
    var x := inputs[|inputs| - 1];
    Asked(inputs[..|inputs| - 1]) + if Classify(x.frame).Msg1? then [x] else []
  }

  /** The op is the answer to the message 1 in `x`, with its counter. */
  ghost predicate AnswersInput(op: Op, x: Input)
    requires Classify(x.frame).Msg1?
  {
    && op.Send? && op.ok == x.answers.send
    && Parse(op.frame).Some?
    && Parse(op.frame).value.keyInfo == 0x010A && Parse(op.frame).value.replay == x.frame[9..17]
  }

  ghost predicate AllAnswered(trace: seq<Op>, asked: seq<Input>)
    requires forall i :: 0 <= i < |asked| ==> Classify(asked[i].frame).Msg1?
  {
    |trace| == |asked| && forall i :: 0 <= i < |asked| ==> AnswersInput(trace[i], asked[i])
  }

  /** Before message 3 the station calls no other op, and its answers go with the message 1 frames one by one. */
  lemma {:induction false} EveryMsg1IsAnswered(cf: Compress, p: Pair, inputs: seq<Input>)
    requires PairOk(p) && EarlyRun(cf, p, inputs)
    ensures AllAnswered(Run(cf, Init(p.pmk, p.aa, p.spa), inputs).sm.trace, Asked(inputs))
  {
    hide Step, Classify, Early, Parse, MicOk;
    if inputs != [] {
      var before, x := inputs[..|inputs| - 1], inputs[|inputs| - 1];
      EveryMsg1IsAnswered(cf, p, before);
      FirstPhaseRun(cf, p, before);
      hide Init, FirstPhase, AnswersInput, Ptk, EarlyRun;
      var s := Run(cf, Init(p.pmk, p.aa, p.spa), before).sm;
      OneMoreAnswer(cf, p, s, x);
    }
  }

  lemma OneMoreAnswer(cf: Compress, p: Pair, s: Sm, x: Input)
    requires FirstPhase(cf, p, s) && Early(cf, p, s, x.frame)
    ensures
      var t := Step(cf, s, x.frame, x.answers).sm.trace;
      if Classify(x.frame).Msg1?
      then |t| == |s.trace| + 1 && t[..|s.trace|] == s.trace && AnswersInput(t[|s.trace|], x)
      else t == s.trace
  {
    hide Classify, Ptk, Reply, IsMsg2, Parse, MicOk;
    if Classify(x.frame).Msg1? {
      hide Step;
      AnswerToMsg1(cf, s, x.frame, x.answers);
    }
  }

  /**
   * A message 1 keeps the SNonce exactly when the station has answered the authenticator's ANonce before, or when the
   * random bytes repeat.
   */
  lemma SNonceKept(cf: Compress, p: Pair, s: Sm, x: Input)
    requires FirstPhase(cf, p, s) && Early(cf, p, s, x.frame) && Classify(x.frame).Msg1?
    ensures
      var t := Step(cf, s, x.frame, x.answers).sm;
      && (t.snonce == s.snonce <==> s.phase == GotMsg1 || x.answers.random == s.snonce)
      && (t.phase == GotMsg1 <==> s.phase == GotMsg1 || x.answers.send)
  {
    hide Classify, Ptk, Reply, IsMsg2;
  }

  /** A message 1 as an authenticator sends it. */
  function Msg1Frame(replay: seq<bv8>, anonce: seq<bv8>): seq<bv8>
    requires |replay| == 8 && |anonce| == 32
  {
    Frame(0x008A, 16, replay, anonce, [], Zeros(MIC_LEN))
  }

  lemma Msg1IsFirst(p: Pair, replay: seq<bv8>)
    requires PairOk(p) && |replay| == 8
    ensures
      var m := Classify(Msg1Frame(replay, p.anonce));
      m.Msg1? && m.k.nonce == p.anonce
  {
    hide Parse, Frame;
    var f := Msg1Frame(replay, p.anonce);
    ParseOfFrame(0x008A, 16, replay, p.anonce, [], Zeros(MIC_LEN), []);
    assert f + [] == f;
    Msg1Bits();
  }

  lemma Msg1Bits()
    ensures Has(0x008A, ACK) && 0x008A % 8 == 2 && Has(0x008A, PAIRWISE) && !Has(0x008A, MIC) && !Has(0x008A, INSTALL)
  {
  }

  /** Message 1 twice, the answer to the first one failing to go out: two message 2 with different nonces. */
  lemma FailedSendRedraws(cf: Compress, p: Pair, r1: seq<bv8>, r2: seq<bv8>, a1: Answers, a2: Answers)
    requires PairOk(p) && |r1| == |r2| == 8 && !a1.send && a1.random != a2.random
    ensures
      var inputs := [Input(Msg1Frame(r1, p.anonce), a1), Input(Msg1Frame(r2, p.anonce), a2)];
      var s0 := Init(p.pmk, p.aa, p.spa);
      var before, after := Run(cf, s0, inputs[..1]).sm, Run(cf, s0, inputs).sm;
      && |before.trace| == 1 && |after.trace| == 2 && before.trace[0].Send? && after.trace[1].Send?
      && before.snonce == a1.random != a2.random == after.snonce
      && IsMsg2(cf, before.trace[0].frame, Kck(before), before.snonce)
      && IsMsg2(cf, after.trace[1].frame, Kck(after), after.snonce)
  {
    hide Classify, Ptk, Reply, IsMsg2, Msg1Frame;
    var s0 := Init(p.pmk, p.aa, p.spa);
    var x1, x2 := Input(Msg1Frame(r1, p.anonce), a1), Input(Msg1Frame(r2, p.anonce), a2);
    var inputs := [x1, x2];
    assert inputs[..1] == [x1] && [x1][..0] == [] && inputs[..|inputs| - 1] == [x1];
    Msg1IsFirst(p, r1);
    Msg1IsFirst(p, r2);
    var k1, k2 := Classify(x1.frame).k, Classify(x2.frame).k;
    var t1 := TakeNonce(cf, s0, k1.nonce, a1.random);
    ReplyIsMsg2(cf, t1, k1.replay);
    var s1 := Step(cf, s0, x1.frame, a1).sm;
    ReplyIsMsg2(cf, TakeNonce(cf, s1, k2.nonce, a2.random), k2.replay);
    assert Run(cf, s0, [x1]).sm == s1;
  }

  // ---- The authenticator ----

  /** The authenticator's PTK from the message 2 it heard; it puts its own address and nonce last. */
  function AuthPtk(cf: Compress, p: Pair, msg2: seq<bv8>): (k: seq<bv8>)
    requires PairOk(p) && Parse(msg2).Some?
    ensures |k| == 48
  {
    Ptk(cf, p.pmk, p.spa, p.aa, Parse(msg2).value.nonce, p.anonce)
  }

  /** The key data of message 3 before wrapping: other elements, the GTK, padding. */
  datatype Payload = Payload(others: seq<Element>, idByte: bv8, reserved: bv8, gtk: seq<bv8>, padding: seq<bv8>)

  predicate PayloadOk(d: Payload) {
    && AllOrdinary(d.others) && |d.gtk| == 16
    && |Plain(d)| % 8 == 0 && 16 <= |Plain(d)| <= KEY_DATA_MAX
  }

  function Plain(d: Payload): seq<bv8>
    requires AllOrdinary(d.others) && |d.gtk| == 16
  {
    EncodeElements(d.others) + EncodeGtk(d.idByte, d.reserved, d.gtk) + d.padding
  }

  function Delivered(d: Payload): Gtk {
    Gtk(d.idByte & 0x03, d.gtk)
  }

  predicate Msg3Info(info: nat) {
    && info < 0x1_0000 && info % 8 == 2
    && Has(info, ACK) && Has(info, PAIRWISE) && Has(info, MIC) && Has(info, INSTALL) && Has(info, ENCRYPTED)
  }

  predicate Group1Info(info: nat) {
    && info < 0x1_0000 && info % 8 == 2
    && Has(info, ACK) && !Has(info, PAIRWISE) && Has(info, MIC) && Has(info, SECURE) && Has(info, ENCRYPTED)
  }

  /** The wrapped key data. */
  function Sealed(ptk: seq<bv8>, d: Payload): (b: seq<bv8>)
    requires |ptk| == 48 && PayloadOk(d)
    ensures |b| == |Plain(d)| + 8 <= KEY_DATA_MAX + 8
  {
    Wrap(ptk[16..32], Plain(d))
  }

  /** A frame of the authenticator with wrapped key data and a MIC. */
  function Protected(cf: Compress, ptk: seq<bv8>, info: nat, keyLength: nat, replay: seq<bv8>, nonce: seq<bv8>,
                     d: Payload): (f: seq<bv8>)
    requires |ptk| == 48 && |replay| == 8 && |nonce| == 32 && PayloadOk(d)
    ensures |f| == KEY_FIXED + |Plain(d)| + 8
  {
    Build(cf, EAPOL_MAX, info, keyLength, replay, nonce, Sealed(ptk, d), Some(ptk[..16])).value
  }

  lemma ProtectedParses(cf: Compress, ptk: seq<bv8>, info: nat, keyLength: nat, replay: seq<bv8>, nonce: seq<bv8>,
                        d: Payload, trailer: seq<bv8>)
    requires |ptk| == 48 && |replay| == 8 && |nonce| == 32 && PayloadOk(d) && info < 0x1_0000 && keyLength < 0x1_0000
    ensures
      var f := Protected(cf, ptk, info, keyLength, replay, nonce, d);
      && Parse(f + trailer) == Some(Key(info, keyLength, replay, nonce, Sealed(ptk, d), |f|))
      && MicOk(cf, ptk[..16], f) && (f + trailer)[..|f|] == f
  {
    hide Build, Parse, MicOk, Sealed, Plain;
    BuildParses(cf, EAPOL_MAX, info, keyLength, replay, nonce, Sealed(ptk, d), ptk[..16], trailer);
  }

  /** The station gets the authenticator's group key out of the wrapped key data. */
  lemma GtkComesThrough(ptk: seq<bv8>, d: Payload, k: Key)
    requires |ptk| == 48 && PayloadOk(d) && Has(k.keyInfo, ENCRYPTED) && k.keyData == Sealed(ptk, d)
    ensures UnwrapGtk(ptk[16..32], k) == Some(Delivered(d))
  {
    hide Wrap, Unwrap, FindGtk, Plain, AllOrdinary;
    UnwrapOfWrap(ptk[16..32], Plain(d));
    FindInPlain(d);
  }

  lemma FindInPlain(d: Payload)
    requires AllOrdinary(d.others) && |d.gtk| == 16
    ensures FindGtk(Plain(d), 0) == Some(Delivered(d))
  {
    hide FindGtk, EncodeElements, EncodeGtk, AllOrdinary;
    var plain := Plain(d);
    assert plain[0..] == plain;
    FindAfter(plain, 0, d.others, d.idByte, d.reserved, d.gtk);
  }

  /** Key data gives a group key exactly when it is encrypted and is the wrap of 16 to 192 bytes that hold one. */
  lemma UnwrapGtkIs(kek: seq<bv8>, k: Key, g: Gtk)
    requires |kek| == 16
    ensures UnwrapGtk(kek, k) == Some(g) <==>
      Has(k.keyInfo, 0x1000) && exists plain :: IsWrapOf(kek, k.keyData, plain) && FindGtk(plain, 0) == Some(g)
  {
    hide Wrap, Unwrap, FindGtk, Has;
    if UnwrapGtk(kek, k) == Some(g) {
      WrapOfUnwrap(kek, k.keyData);
      assert IsWrapOf(kek, k.keyData, Unwrap(kek, k.keyData).value);
    }
    if plain :| IsWrapOf(kek, k.keyData, plain) && FindGtk(plain, 0) == Some(g) {
      UnwrapOfWrap(kek, plain);
    }
  }

  ghost predicate IsWrapOf(kek: seq<bv8>, data: seq<bv8>, plain: seq<bv8>)
    requires |kek| == 16
  {
    |plain| % 8 == 0 && 16 <= |plain| <= 192 && data == Wrap(kek, plain)
  }

  // ---- Message 3 ----

  /** The counter is above the baseline, if there is one. */
  predicate Newer(s: Sm, replay: seq<bv8>) {
    s.replay.Some? ==> Number(s.replay.value) < Number(replay)
  }

  lemma NewerIsOk(s: Sm, replay: seq<bv8>)
    requires Wpa2Sm.Shaped(s) && |replay| == 8
    ensures Newer(s, replay) <==> ReplayOk(s, replay)
  {
    hide Number, Less;
    if s.replay.Some? {
      LessIsNumeric(s.replay.value, replay);
    }
  }

  predicate AllOk(ops: seq<Op>) {
    ops == [] || (ops[0].ok && AllOk(ops[1..]))
  }

  /** Of ops to be called one after the other those that are: up to the first that fails. */
  function Called(ops: seq<Op>): seq<Op> {
    if ops == [] then [] else [ops[0]] + if ops[0].ok then Called(ops[1..]) else []
  }

  lemma {:induction false} CalledThen(a: seq<Op>, b: seq<Op>)
    ensures Called(a + b) == if AllOk(a) then a + Called(b) else Called(a)
    ensures AllOk(a + b) <==> AllOk(a) && AllOk(b)
  {
    hide Called, AllOk;
    if a == [] {
      NothingCalled();
      assert a + b == b;
    } else {
      CalledThen(a[1..], b);
      CalledFront(a);
      CalledFront(a + b);
      assert (a + b)[1..] == a[1..] + b;
      assert [a[0]] + (a[1..] + Called(b)) == a + Called(b);
    }
  }

  lemma NothingCalled()
    ensures Called([]) == [] && AllOk([])
  {
  }

  lemma CalledFront(ops: seq<Op>)
    requires ops != []
    ensures Called(ops) == [ops[0]] + if ops[0].ok then Called(ops[1..]) else []
    ensures AllOk(ops) <==> ops[0].ok && AllOk(ops[1..])
  {
  }

  lemma CalledNone(ops: seq<Op>)
    ensures Called([]) == [] && AllOk([]) && (AllOk(ops) ==> Called(ops) == ops)
  {
    CalledThen(ops, []);
    assert ops + [] == ops;
  }

  lemma CalledOne(op: Op)
    ensures Called([op]) == [op] && (AllOk([op]) <==> op.ok)
  {
    assert [op][1..] == [];
  }

  /** The keys and the port a message 3 asks for: what is not in yet. */
  function Missing(s: Sm, g: Gtk, a: Answers): seq<Op>
    requires Wpa2Sm.Shaped(s)
  {
    (if s.ptkInstalled then [] else [InstallPtk(s.ptk[32..], a.ptk)]) +
    (if s.gtk == Some(g) then [] else [InstallGtk(g, a.gtk)]) +
    (if s.phase == Established then [] else [OpenPort(a.port)])
  }

  lemma FinishIs(s: Sm, g: Gtk, a: Answers)
    requires Wpa2Sm.Shaped(s)
    ensures
      var o, ops := FinishMsg3(s, g, a), Missing(s, g, a);
      var tk := s.ptkInstalled || a.ptk;
      var group := tk && (s.gtk == Some(g) || a.gtk);
      && o.result == (if !AllOk(ops) then Failed else if s.phase == Established then Progress else Done)
      && o.sm == s.(trace := s.trace + Called(ops), ptkInstalled := tk, gtk := if group then Some(g) else s.gtk,
                    phase := if group && a.port then Established else s.phase)
  {
    hide Called, AllOk;
    var x := if s.ptkInstalled then [] else [InstallPtk(s.ptk[32..], a.ptk)];
    var y := if s.gtk == Some(g) then [] else [InstallGtk(g, a.gtk)];
    var z := if s.phase == Established then [] else [OpenPort(a.port)];
    CalledNone([]);
    CalledOne(InstallPtk(s.ptk[32..], a.ptk));
    CalledOne(InstallGtk(g, a.gtk));
    CalledOne(OpenPort(a.port));
    CalledThen(x + y, z);
    CalledThen(x, y);
    Joined(s.trace, x, y, z);
  }

  lemma Joined(t: seq<Op>, x: seq<Op>, y: seq<Op>, z: seq<Op>)
    ensures t + [] == t && t + x + y == t + (x + y) && t + (x + y) + z == t + (x + y + z)
    ensures [] + y == y && x + [] == x
  {
  }

  /**
   * An authentic message 3 with a newer counter, to a station in any state behind message 1, for every pattern of
   * answers: message 4 goes out, then what is missing goes in, in the order TK, GTK, port, up to the first op that
   * fails. The result is Done exactly when this opened the port, and Progress for a repeated message 3.
   */
  lemma Msg3Taken(cf: Compress, s: Sm, info: nat, replay: seq<bv8>, d: Payload, trailer: seq<bv8>, a: Answers)
    requires Wpa2Sm.Shaped(s) && s.phase != Idle && Msg3Info(info) && |replay| == 8 && Newer(s, replay) && PayloadOk(d)
    requires KEY_FIXED + |Plain(d)| + 8 + |trailer| <= EAPOL_MAX
    ensures
      var o := Step(cf, s, Protected(cf, s.ptk, info, 16, replay, s.anonce, d) + trailer, a);
      var ops := [Send(Reply(cf, s, MSG4, replay, ZERO_NONCE, []).value, a.send)] + Missing(s, Delivered(d), a);
      var tk := a.send && (s.ptkInstalled || a.ptk);
      var group := tk && (s.gtk == Some(Delivered(d)) || a.gtk);
      && o.result == (if !AllOk(ops) then Failed else if s.phase == Established then Progress else Done)
      && o.sm == s.(replay := Some(replay), trace := s.trace + Called(ops), ptkInstalled := s.ptkInstalled || tk,
                    gtk := if group then Some(Delivered(d)) else s.gtk,
                    phase := if group && a.port then Established else s.phase)
  {
    hide Parse, MicOk, UnwrapGtk, Sealed, Protected, Plain, PayloadOk, Reply, Has, ReplayOk, Number, Called, AllOk;
    hide FinishMsg3, Delivered, Missing, Classify;
    var f := Protected(cf, s.ptk, info, 16, replay, s.anonce, d);
    ProtectedParses(cf, s.ptk, info, 16, replay, s.anonce, d, trailer);
    var k := Key(info, 16, replay, s.anonce, Sealed(s.ptk, d), |f|);
    Msg3Bits(f + trailer, k);
    GtkComesThrough(s.ptk, d, k);
    NewerIsOk(s, replay);
    assert Fresh(cf, s, k, f + trailer);
    var noted := s.(replay := Some(replay));
    SameReply(cf, s, noted, MSG4, replay);
    var reply := Send(Reply(cf, s, MSG4, replay, ZERO_NONCE, []).value, a.send);
    var g := Delivered(d);
    var sent := noted.(trace := s.trace + [reply]);
    FinishIs(sent, g, a);
    SameMissing(s, sent, g, a);
    CalledOne(reply);
    CalledThen([reply], Missing(s, g, a));
    assert s.trace + [reply] + Called(Missing(s, g, a)) == s.trace + ([reply] + Called(Missing(s, g, a)));
  }

  lemma SameMissing(s: Sm, t: Sm, g: Gtk, a: Answers)
    requires Wpa2Sm.Shaped(s) && Wpa2Sm.Shaped(t)
    requires t.ptk == s.ptk && t.ptkInstalled == s.ptkInstalled && t.gtk == s.gtk && t.phase == s.phase
    ensures Missing(t, g, a) == Missing(s, g, a)
  {
  }

  lemma Msg3Bits(frame: seq<bv8>, k: Key)
    requires |frame| <= EAPOL_MAX && Parse(frame) == Some(k) && Msg3Info(k.keyInfo)
    ensures Classify(frame) == Msg3(k) && Has(k.keyInfo, ENCRYPTED)
  {
    hide Parse, Has, Classify;
    ClassifyHas(frame, k);
  }

  lemma Group1Bits(frame: seq<bv8>, k: Key)
    requires |frame| <= EAPOL_MAX && Parse(frame) == Some(k) && Group1Info(k.keyInfo)
    ensures Classify(frame) == Group1(k) && Has(k.keyInfo, ENCRYPTED)
  {
    hide Parse, Has, Classify;
    ClassifyHas(frame, k);
  }

  /** The first message 3, with every op succeeding: message 4, TK, GTK, port. */
  lemma FirstMsg3(cf: Compress, s: Sm, info: nat, replay: seq<bv8>, d: Payload, trailer: seq<bv8>, random: Nonce)
    requires Wpa2Sm.Shaped(s) && s.phase == GotMsg1 && s.replay == None && s.gtk == None && !s.ptkInstalled
    requires Msg3Info(info) && |replay| == 8 && PayloadOk(d) && KEY_FIXED + |Plain(d)| + 8 + |trailer| <= EAPOL_MAX
    ensures
      var o := Step(cf, s, Protected(cf, s.ptk, info, 16, replay, s.anonce, d) + trailer, AllSucceed(random));
      var msg4 := Reply(cf, s, MSG4, replay, ZERO_NONCE, []).value;
      && o.result == Done
      && o.sm == s.(replay := Some(replay), gtk := Some(Delivered(d)), ptkInstalled := true, phase := Established,
                    trace := s.trace + [Send(msg4, true), InstallPtk(s.ptk[32..], true),
                                        InstallGtk(Delivered(d), true), OpenPort(true)])
  {
    hide Step, Protected, PayloadOk, Plain, Msg3Info, Reply, Called, AllOk, Delivered;
    var a, g := AllSucceed(random), Delivered(d);
    Msg3Taken(cf, s, info, replay, d, trailer, a);
    var ops := [Send(Reply(cf, s, MSG4, replay, ZERO_NONCE, []).value, true), InstallPtk(s.ptk[32..], true),
                InstallGtk(g, true), OpenPort(true)];
    FourOk(ops);
    CalledNone(ops);
    assert [ops[0]] + Missing(s, g, a) == ops;
  }

  lemma FourOk(ops: seq<Op>)
    requires |ops| == 4 && ops[0].ok && ops[1].ok && ops[2].ok && ops[3].ok
    ensures AllOk(ops)
  {
    hide AllOk, Called;
    CalledFront(ops);
    CalledFront(ops[1..]);
    CalledFront(ops[2..]);
    CalledFront(ops[3..]);
    NothingCalled();
    assert ops[1..][1..] == ops[2..] && ops[2..][1..] == ops[3..] && ops[3..][1..] == [];
  }

  /** The key information access points send with message 3 and group message 1. */
  lemma UsualInfos()
    ensures Msg3Info(0x13CA) && Group1Info(0x1382)
  {
  }

  /** A reply depends on the key only. */
  lemma SameReply(cf: Compress, s: Sm, t: Sm, info: nat, replay: seq<bv8>)
    requires Wpa2Sm.Shaped(s) && Wpa2Sm.Shaped(t) && s.ptk == t.ptk && |replay| == 8
    ensures Reply(cf, s, info, replay, ZERO_NONCE, []) == Reply(cf, t, info, replay, ZERO_NONCE, [])
  {
    hide Build;
  }

  /** What the authenticator asks of a message 2 before it goes on: its own counter, the information, and the MIC. */
  ghost predicate AuthTakes(cf: Compress, p: Pair, counter: seq<bv8>, msg2: seq<bv8>)
    requires PairOk(p)
  {
    && Parse(msg2).Some?
    && var k := Parse(msg2).value;
       k.keyInfo == 0x010A && k.replay == counter && k.keyData == RSN_IE && MicOk(cf, AuthPtk(cf, p, msg2)[..16], msg2)
  }

  /**
   * Agreement. Message 1 of one authenticator comes any number of times, with any counters and any losses or failed
   * sends; for whichever of them, the i-th, the answer went out, that answer is a message 2 with the counter of this
   * message 1, which the authenticator takes, and it answers with its group key. The station then reports Done with the
   * authenticator's TK and GTK installed in that order behind message 4, and message 4 passes the authenticator's MIC
   * check.
   */
  lemma Agreement(cf: Compress, p: Pair, inputs: seq<Input>, i: nat, info: nat, replay: seq<bv8>, d: Payload,
                  trailer: seq<bv8>, random: Nonce)
    requires PairOk(p) && EarlyRun(cf, p, inputs)
    requires i < |Asked(inputs)| && Asked(inputs)[i].answers.send
    requires Msg3Info(info) && |replay| == 8 && PayloadOk(d) && KEY_FIXED + |Plain(d)| + 8 + |trailer| <= EAPOL_MAX
    ensures
      var s := Run(cf, Init(p.pmk, p.aa, p.spa), inputs).sm;
      && |s.trace| == |Asked(inputs)| && s.trace[i].Send? && s.trace[i].ok
      && AuthTakes(cf, p, Asked(inputs)[i].frame[9..17], s.trace[i].frame)
      && var ptk := AuthPtk(cf, p, s.trace[i].frame);
         var msg4 := Reply(cf, s, MSG4, replay, ZERO_NONCE, []).value;
         var o := Step(cf, s, Protected(cf, ptk, info, 16, replay, p.anonce, d) + trailer, AllSucceed(random));
         && o.result == Done
         && o.sm.ptk == ptk && o.sm.gtk == Some(Delivered(d))
         && o.sm.trace == s.trace +
              [Send(msg4, true), InstallPtk(ptk[32..], true), InstallGtk(Delivered(d), true), OpenPort(true)]
         && MicOk(cf, ptk[..16], msg4) && Parse(msg4) == Some(Key(0x030A, 0, replay, Zeros(32), [], |msg4|))
  {
    hide Run, Init, Ptk, Parse, MicOk, EarlyRun, Step, Protected, PayloadOk, Plain, Msg3Info, Reply, Asked;
    var s := Run(cf, Init(p.pmk, p.aa, p.spa), inputs).sm;
    FirstPhaseRun(cf, p, inputs);
    EveryMsg1IsAnswered(cf, p, inputs);
    assert AnswersInput(s.trace[i], Asked(inputs)[i]);
    PtkSymmetric(cf, p.pmk, p.aa, p.spa, p.anonce, s.snonce);
    FirstMsg3(cf, s, info, replay, d, trailer, random);
    ReplyParses(cf, s, MSG4, replay, ZERO_NONCE, []);
  }

  // ---- Group rekeying ----

  /**
   * A group message 1 with a newer counter, on an established station, for every pattern of answers: a reply with its
   * counter goes out, and then the key goes in exactly when it is not the one that went in last.
   */
  lemma GroupRekey(cf: Compress, s: Sm, info: nat, keyLength: nat, replay: seq<bv8>, nonce: seq<bv8>, d: Payload,
                   trailer: seq<bv8>, a: Answers)
    requires Wpa2Sm.Shaped(s) && s.phase == Established && Group1Info(info) && keyLength < 0x1_0000
    requires |replay| == 8 && |nonce| == 32 && PayloadOk(d) && KEY_FIXED + |Plain(d)| + 8 + |trailer| <= EAPOL_MAX
    requires Newer(s, replay)
    ensures
      var f, g := Protected(cf, s.ptk, info, keyLength, replay, nonce, d), Delivered(d);
      var o := Step(cf, s, f + trailer, a);
      var reply := Reply(cf, s, GROUP_MSG2, replay, ZERO_NONCE, []).value;
      && MicOk(cf, Kck(s), reply) && Parse(reply) == Some(Key(0x0302, 0, replay, Zeros(32), [], |reply|))
      && (o.result == if a.send && (s.gtk == Some(g) || a.gtk) then Progress else Failed)
      && o.sm == s.(replay := Some(replay), gtk := if a.send && a.gtk then Some(g) else s.gtk,
                    trace := s.trace + [Send(reply, a.send)] +
                      if a.send && s.gtk != Some(g) then [InstallGtk(g, a.gtk)] else [])
  {
    hide Parse, MicOk, UnwrapGtk, Sealed, Protected, Plain, PayloadOk, Reply, Has, ReplayOk, Number, Classify;
    hide Delivered;
    var f := Protected(cf, s.ptk, info, keyLength, replay, nonce, d);
    ProtectedParses(cf, s.ptk, info, keyLength, replay, nonce, d, trailer);
    var k := Key(info, keyLength, replay, nonce, Sealed(s.ptk, d), |f|);
    Group1Bits(f + trailer, k);
    GtkComesThrough(s.ptk, d, k);
    NewerIsOk(s, replay);
    assert Fresh(cf, s, k, f + trailer);
    SameReply(cf, s, s.(replay := Some(replay)), GROUP_MSG2, replay);
    ReplyParses(cf, s, GROUP_MSG2, replay, ZERO_NONCE, []);
  }

  function Group1Frame(cf: Compress, s: Sm, info: nat, replay: seq<bv8>, d: Payload): seq<bv8>
    requires Wpa2Sm.Shaped(s) && |replay| == 8 && PayloadOk(d)
  {
    Protected(cf, s.ptk, info, 16, replay, ZERO_NONCE, d) + []
  }

  /** The station after an honest group message 1. */
  function Rekeyed(cf: Compress, s: Sm, info: nat, replay: seq<bv8>, d: Payload, random: Nonce): Sm
    requires Wpa2Sm.Shaped(s) && |replay| == 8 && PayloadOk(d)
  {
    Step(cf, s, Group1Frame(cf, s, info, replay, d), AllSucceed(random)).sm
  }

  lemma RekeyTrace(t: seq<Op>, reply: Op, g: Gtk)
    requires reply.Send?
    ensures Gtks(t + [reply] + [InstallGtk(g, true)]) == Gtks(t) + [g]
  {
    hide Gtks;
    TraceSnoc(t, reply);
    TraceSnoc(t + [reply], InstallGtk(g, true));
  }

  lemma RekeyInstalls(cf: Compress, s: Sm, info: nat, replay: seq<bv8>, d: Payload, random: Nonce)
    requires Wpa2Sm.Shaped(s) && s.phase == Established && Group1Info(info) && |replay| == 8 && PayloadOk(d)
    requires Newer(s, replay) && s.gtk != Some(Delivered(d))
    ensures
      var t := Rekeyed(cf, s, info, replay, d, random);
      && Wpa2Sm.Shaped(t) && t.phase == Established && t.replay == Some(replay) && t.gtk == Some(Delivered(d))
      && Gtks(t.trace) == Gtks(s.trace) + [Delivered(d)]
  {
    hide Step, Gtks, Protected, Plain, Reply, Newer, Delivered, Group1Info, Parse, MicOk;
    GroupRekey(cf, s, info, 16, replay, ZERO_NONCE, d, [], AllSucceed(random));
    RekeyTrace(s.trace, Send(Reply(cf, s, GROUP_MSG2, replay, ZERO_NONCE, []).value, true), Delivered(d));
  }

  /**
   * Only the newest group key is remembered: when the authenticator goes from one key to another and back, the first
   * one, still in its slot, is installed a second time.
   */
  lemma EarlierGtkReturns(cf: Compress, s: Sm, info: nat, r1: seq<bv8>, r2: seq<bv8>, d1: Payload, d2: Payload,
                          random: Nonce)
    requires Wpa2Sm.Shaped(s) && s.phase == Established && Group1Info(info) && |r1| == |r2| == 8
    requires PayloadOk(d1) && PayloadOk(d2)
    requires Newer(s, r1) && Number(r1) < Number(r2) && s.gtk == Some(Delivered(d1)) && Delivered(d1) != Delivered(d2)
    ensures
      var t := Rekeyed(cf, s, info, r1, d2, random);
      Gtks(Rekeyed(cf, t, info, r2, d1, random).trace) == Gtks(s.trace) + [Delivered(d2), Delivered(d1)]
  {
    hide Rekeyed, Gtks, PayloadOk, Number, Delivered, Group1Info;
    RekeyInstalls(cf, s, info, r1, d2, random);
    RekeyInstalls(cf, Rekeyed(cf, s, info, r1, d2, random), info, r2, d1, random);
  }
}
