/** struct wpa2_sm and the calls that change it: every received frame does one Step of the Wpa2Sm module. */
module Wpa2Station {
  import opened Wrappers
  import opened AesTables
  import opened Sha1
  import opened Kdf
  import opened KeyWrap
  import opened Eapol
  import opened Wpa2Sm

  class Station {
    const cf: Compress
    const sbox: seq<bv8>
    const inv: seq<bv8>
    var pmk: seq<bv8>
    var aa: seq<bv8>
    var spa: seq<bv8>
    var ptk: seq<bv8>
    var anonce: seq<bv8>
    var snonce: seq<bv8>
    var replay: seq<bv8>
    var haveReplay: bool
    var gtk: seq<bv8>
    var gtkId: bv8
    var gtkInstalled: bool
    var ptkInstalled: bool
    var phase: Phase
    /** The ops called so far. */
    var trace: seq<Op>

    ghost predicate Valid()
      reads this
    {
      IsTables(sbox, inv) && Wpa2Sm.Shaped(View()) && |replay| == 8
    }

    ghost function View(): Sm
      reads this
    {
      Sm(pmk, aa, spa, ptk, anonce, snonce, if haveReplay then Some(replay) else None,
         if gtkInstalled then Some(Gtk(gtkId, gtk)) else None, ptkInstalled, phase, trace)
    }

    constructor (cf: Compress, pmk: seq<bv8>, aa: seq<bv8>, spa: seq<bv8>)
      requires |aa| == |spa| == 6
      ensures Valid() && View() == Init(pmk, aa, spa) && this.cf == cf
    {
      hide IsTables;
      var sb, iv := InitTables();
      this.cf, sbox, inv := cf, sb[..], iv[..];
      this.pmk, this.aa, this.spa := pmk, aa, spa;
      ptk, anonce, snonce := Zeros(48), Zeros(32), Zeros(32);
      replay, haveReplay := Zeros(8), false;
      gtk, gtkId, gtkInstalled, ptkInstalled := Zeros(16), 0, false, false;
      phase, trace := Idle, [];
    }

    method SendKeyFrame(info: nat, counter: seq<bv8>, nonce: Option<seq<bv8>>, keyData: seq<bv8>, answer: bool)
      returns (ok: bool)
      requires Valid() && |counter| == 8 && (nonce.Some? ==> |nonce.value| == 32)
      modifies this`trace
      ensures Valid()
      ensures Stage(View(), ok) ==
        SendKey(cf, old(View()), info, counter, if nonce.Some? then nonce.value else ZERO_NONCE, keyData, answer)
    {
      hide IsTables, Build;
      var buf := new bv8[EAPOL_MAX];
      var field := if nonce.Some? then nonce.value else ZERO_NONCE;
      var n := BuildCode(cf, buf, info, 0, counter, field, keyData, Some(ptk[..16]));
      if n == 0 {
        return false;
      }
      trace := trace + [Send(buf[..n], answer)];
      return answer;
    }

    method ReplayIsOk(counter: seq<bv8>) returns (ok: bool)
      requires Valid() && |counter| == 8
      ensures ok <==> ReplayOk(View(), counter)
    {
      ok := !haveReplay || Less(replay, counter);
    }

    method NoteReplay(counter: seq<bv8>)
      requires Valid() && |counter| == 8
      modifies this`replay, this`haveReplay
      ensures Valid() && View() == old(View()).(replay := Some(counter))
    {
      hide IsTables;
      replay := counter;
      haveReplay := true;
    }

    method UnwrapKeyData(k: Key) returns (g: Option<Gtk>)
      requires Valid()
      ensures g == UnwrapGtk(ptk[16..32], k)
    {
      hide IsTables, Unwrap, FindGtk;
      if !Has(k.keyInfo, ENCRYPTED) {
        return None;
      }
      var n := |k.keyData|;
      if n < 24 || n % 8 != 0 || n - 8 > KEY_DATA_MAX {
        return None;
      }
      var plain := new bv8[n - 8];
      var ok := KeyUnwrapCode(sbox, inv, ptk[16..32], k.keyData, plain);
      if !ok {
        return None;
      }
      g := FindGtkCode(plain[..]);
    }

    method InstallGroupKey(g: Gtk, answer: bool) returns (ok: bool)
      requires Valid()
      modifies this`gtk, this`gtkId, this`gtkInstalled, this`trace
      ensures Valid() && Stage(View(), ok) == InstallGtkOnce(old(View()), g, answer)
    {
      hide IsTables;
      if gtkInstalled && gtkId == g.id && gtk == g.key {
        return true;
      }
      trace := trace + [InstallGtk(g, answer)];
      if !answer {
        return false;
      }
      gtk := g.key;
      gtkId := g.id;
      gtkInstalled := true;
      return true;
    }

    /** New nonces and a new PTK, unless the message repeats the one that was answered. */
    method TakeNonces(k: Key, random: Nonce)
      requires Valid() && KeyShaped(k)
      modifies this`anonce, this`snonce, this`ptk
      ensures Valid() && View() == TakeNonce(cf, old(View()), k.nonce, random)
    {
      hide IsTables, Ptk;
      if phase != GotMsg1 || anonce != k.nonce {
        anonce := k.nonce;
        snonce := random;
        ptk := PtkCode(cf, pmk, aa, spa, anonce, snonce);
      }
    }

    method HandleMsg1(k: Key, a: Answers) returns (r: Result)
      requires Valid() && KeyShaped(k)
      modifies this`anonce, this`snonce, this`ptk, this`phase, this`trace
      ensures Valid() && Out(View(), r) == OnMsg1(cf, old(View()), k, a)
    {
      hide IsTables, SendKey, TakeNonce;
      if ptkInstalled {
        return Ignored;
      }
      TakeNonces(k, a.random);
      var sent := SendKeyFrame(MSG2, k.replay, Some(snonce), RSN_IE, a.send);
      if !sent {
        return Failed;
      }
      phase := GotMsg1;
      return Progress;
    }

    /** The checks that messages 3 and group message 1 share. */
    method IsFresh(k: Key, frame: seq<bv8>) returns (ok: bool)
      requires Valid() && KeyShaped(k) && k.frameLen <= |frame|
      ensures ok <==> Fresh(cf, View(), k, frame)
    {
      hide IsTables, MicOk, ReplayOk;
      ok := MicOkCode(cf, ptk[..16], frame[..k.frameLen]);
      if ok {
        ok := ReplayIsOk(k.replay);
      }
    }

    method HandleMsg3(k: Key, frame: seq<bv8>, a: Answers) returns (r: Result)
      requires Valid() && KeyShaped(k) && k.frameLen <= |frame|
      modifies this`replay, this`haveReplay, this`ptkInstalled, this`gtk, this`gtkId, this`gtkInstalled
      modifies this`phase, this`trace
      ensures Valid() && Out(View(), r) == OnMsg3(cf, old(View()), k, frame, a)
    {
      hide IsTables, SendKey, UnwrapGtk, Fresh, FinishMsg3;
      if phase == Idle {
        return Ignored;
      }
      var fresh' := IsFresh(k, frame);
      if !fresh' || k.nonce != anonce || k.keyLength != 16 {
        return Ignored;
      }
      var g := UnwrapKeyData(k);
      if g.None? {
        return Failed;
      }
      NoteReplay(k.replay);
      var sent := SendKeyFrame(MSG4, k.replay, None, [], a.send);
      if !sent {
        return Failed;
      }
      r := InstallKeys(g.value, a);
    }

    method InstallKeys(g: Gtk, a: Answers) returns (r: Result)
      requires Valid()
      modifies this`ptkInstalled, this`gtk, this`gtkId, this`gtkInstalled, this`phase, this`trace
      ensures Valid() && Out(View(), r) == FinishMsg3(old(View()), g, a)
    {
      hide IsTables;
      if !ptkInstalled {
        trace := trace + [InstallPtk(ptk[32..], a.ptk)];
        if !a.ptk {
          return Failed;
        }
        ptkInstalled := true;
      }
      var ok := InstallGroupKey(g, a.gtk);
      if !ok {
        return Failed;
      }
      if phase == Established {
        return Progress;
      }
      trace := trace + [OpenPort(a.port)];
      if !a.port {
        return Failed;
      }
      phase := Established;
      return Done;
    }

    method HandleGroup1(k: Key, frame: seq<bv8>, a: Answers) returns (r: Result)
      requires Valid() && KeyShaped(k) && k.frameLen <= |frame|
      modifies this`replay, this`haveReplay, this`gtk, this`gtkId, this`gtkInstalled, this`trace
      ensures Valid() && Out(View(), r) == OnGroup1(cf, old(View()), k, frame, a)
    {
      hide IsTables, SendKey, UnwrapGtk, Fresh, InstallGtkOnce;
      if phase != Established {
        return Ignored;
      }
      var fresh' := IsFresh(k, frame);
      if !fresh' {
        return Ignored;
      }
      var g := UnwrapKeyData(k);
      if g.None? {
        return Failed;
      }
      NoteReplay(k.replay);
      var sent := SendKeyFrame(GROUP_MSG2, k.replay, None, [], a.send);
      if !sent {
        return Failed;
      }
      var ok := InstallGroupKey(g.value, a.gtk);
      if !ok {
        return Failed;
      }
      return Progress;
    }

    method Rx(frame: seq<bv8>, a: Answers) returns (r: Result)
      requires Valid()
      modifies this
      ensures Valid() && Out(View(), r) == Step(cf, old(View()), frame, a)
    {
      hide IsTables, OnMsg1, OnMsg3, OnGroup1;
      if |frame| > EAPOL_MAX {
        return Ignored;
      }
      var parsed := Parse(frame);
      if parsed.None? {
        return Ignored;
      }
      var k := parsed.value;
      if !Has(k.keyInfo, ACK) || k.keyInfo % 8 != 2 {
        return Ignored;
      }
      if Has(k.keyInfo, PAIRWISE) {
        if !Has(k.keyInfo, MIC) && !Has(k.keyInfo, INSTALL) {
          r := HandleMsg1(k, a);
          return;
        }
        if Has(k.keyInfo, MIC) && Has(k.keyInfo, INSTALL) {
          r := HandleMsg3(k, frame, a);
          return;
        }
        return Ignored;
      }
      if Has(k.keyInfo, MIC) && Has(k.keyInfo, SECURE) {
        r := HandleGroup1(k, frame, a);
        return;
      }
      return Ignored;
    }
  }
}
