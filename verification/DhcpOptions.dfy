/** The option list of a DHCP request (RFC 2132): the walk of the server, and what it finds. */
module DhcpOptions {
  import opened Slices
  import opened Wrappers
  import opened Bytes

  const OPTIONS_OFFSET: nat := 240

  function Get32(b: seq<byte>, at: nat): u32
    requires at + 4 <= |b|
  {
    ((b[at] as int * 256 + b[at + 1] as int) * 256 + b[at + 2] as int) * 256 + b[at + 3] as int
  }

  /** An address in a request: most significant byte first. */
  lemma Get32Is(b: seq<byte>, at: nat)
    requires at + 4 <= |b|
    ensures
      Get32(b, at) == b[at] as int * 0x100_0000 + b[at + 1] as int * 0x1_0000 + b[at + 2] as int * 0x100
                      + b[at + 3] as int
  {
  }

  datatype Options = Options(kind: nat, requested: u32)

  /** The options from `i` on; the last one of its kind counts. Nothing when the list is malformed. */
  function Walk(req: seq<byte>, i: nat, o: Options): (r: Option<Options>)
    decreases |req| - i
  {
    if i >= |req| || req[i] == 255 then Some(o)
    else if req[i] == 0 then Walk(req, i + 1, o)
    else if i + 2 > |req| then None else
    var code, n := req[i], req[i + 1];
    if i + 2 + n > |req| then None else
    var kind := if code == 53 && n == 1 then req[i + 2] else o.kind;
    var requested := if code == 50 && n == 4 then Get32(req, i + 2) else o.requested;
    Walk(req, i + 2 + n, Options(kind, requested))
  }

  // ---- What the walk finds ----

  /** An element of the option list: a pad byte, or an option with its data. */
  datatype Item = Pad | Opt(code: byte, data: seq<byte>)

  predicate IsItem(x: Item) {
    x.Opt? ==> x.code != 0 && x.code != 255 && |x.data| < 256
  }

  ghost predicate AllItems(items: seq<Item>) {
    forall k :: 0 <= k < |items| ==> IsItem(items[k])
  }

  function ItemBytes(x: Item): (b: seq<byte>)
    requires IsItem(x)
    ensures |b| > 0
  {
    match x
    case Pad => [0]
    case Opt(code, data) => [code, |data|] + data
  }

  function ListBytes(items: seq<Item>): seq<byte>
    requires AllItems(items)
  {
    if items == [] then [] else ItemBytes(items[0]) + ListBytes(items[1..])
  }

  /** The end of the request or the end option. */
  predicate Ends(tail: seq<byte>) {
    tail == [] || tail[0] == 255
  }

  /** An option without its length byte, or one whose data runs past the end of the request. */
  predicate RunsPast(tail: seq<byte>) {
    tail != [] && tail[0] != 0 && tail[0] != 255 && (|tail| == 1 || 2 + tail[1] > |tail|)
  }

  /** The last one-byte message type option. */
  function LastKind(items: seq<Item>, none: nat): nat {
    if items == [] then none else
    var x := items[|items| - 1];
    if x.Opt? && x.code == 53 && |x.data| == 1 then x.data[0] else LastKind(items[..|items| - 1], none)
  }

  /** The last four-byte requested address option. */
  function LastRequested(items: seq<Item>, none: u32): u32 {
    if items == [] then none else
    var x := items[|items| - 1];
    if x.Opt? && x.code == 50 && |x.data| == 4 then Get32(x.data, 0) else LastRequested(items[..|items| - 1], none)
  }

  function KindOf(x: Item, none: nat): nat {
    if x.Opt? && x.code == 53 && |x.data| == 1 then x.data[0] else none
  }

  function RequestedOf(x: Item, none: u32): u32 {
    if x.Opt? && x.code == 50 && |x.data| == 4 then Get32(x.data, 0) else none
  }

  lemma {:induction false} LastFront(items: seq<Item>, kind: nat, requested: u32)
    requires items != []
    ensures LastKind(items, kind) == LastKind(items[1..], KindOf(items[0], kind))
    ensures LastRequested(items, requested) == LastRequested(items[1..], RequestedOf(items[0], requested))
  {
    hide Get32;
    var n := |items| - 1;
    if n > 0 {
      LastFront(items[..n], kind, requested);
      assert items[..n][1..] == items[1..][..n - 1];
    } else {
      assert items[1..] == [] && items[..n] == [];
    }
  }

  lemma Get32At(req: seq<byte>, at: nat, data: seq<byte>)
    requires |data| == 4 && at + 4 <= |req| && req[at..at + 4] == data
    ensures Get32(req, at) == Get32(data, 0)
  {
    assert forall k :: 0 <= k < 4 ==> data[k] == req[at + k];
  }

  /** Where the bytes of an item stand. */
  lemma ItemAt(req: seq<byte>, i: nat, x: Item)
    requires IsItem(x) && i <= |req| && ItemBytes(x) <= req[i..]
    ensures i + |ItemBytes(x)| <= |req|
    ensures x.Pad? ==> req[i] == 0 && |ItemBytes(x)| == 1
    ensures x.Opt? ==>
      var n := |x.data|;
      |ItemBytes(x)| == 2 + n && req[i] == x.code && req[i + 1] == n && req[i + 2..i + 2 + n] == x.data
  {
    var b := ItemBytes(x);
    assert forall k :: 0 <= k < |b| ==> req[i..][k] == req[i + k] == b[k];
    if x.Opt? {
      var n := |x.data|;
      assert req[i] == b[0] && req[i + 1] == b[1];
      assert req[i + 2..i + 2 + n] == req[i..][2..2 + n] == b[2..2 + n] == x.data;
    }
  }

  /** The walk takes one item and goes on behind it. */
  lemma WalkItem(req: seq<byte>, i: nat, o: Options, x: Item)
    requires IsItem(x) && i <= |req| && ItemBytes(x) <= req[i..]
    ensures i + |ItemBytes(x)| <= |req|
    ensures Walk(req, i, o) ==
      Walk(req, i + |ItemBytes(x)|, Options(KindOf(x, o.kind), RequestedOf(x, o.requested)))
  {
    hide Get32, ItemBytes;
    ItemAt(req, i, x);
    if x.Opt? {
      if x.code == 50 && |x.data| == 4 {
        Get32At(req, i + 2, x.data);
      }
      if x.code == 53 && |x.data| == 1 {
        assert req[i + 2] == req[i + 2..i + 3][0];
      }
    }
  }

  lemma ListFront(items: seq<Item>, tail: seq<byte>)
    requires AllItems(items) && items != []
    ensures IsItem(items[0]) && AllItems(items[1..])
    ensures ListBytes(items) + tail == ItemBytes(items[0]) + (ListBytes(items[1..]) + tail)
  {
    hide ItemBytes, IsItem;
  }

  /**
   * What the walk finds: behind any items, the last message type and the last requested address of the list, when it
   * ends with the end option or with the request; nothing when an option runs past the end.
   */
  lemma {:induction false} WalkFinds(req: seq<byte>, i: nat, o: Options, items: seq<Item>, tail: seq<byte>)
    requires AllItems(items) && i <= |req| && req[i..] == ListBytes(items) + tail
    ensures Ends(tail) ==>
      Walk(req, i, o) == Some(Options(LastKind(items, o.kind), LastRequested(items, o.requested)))
    ensures RunsPast(tail) ==> Walk(req, i, o) == None
    decreases |items|
  {
    hide Walk, ItemBytes, KindOf, RequestedOf, IsItem, AllItems, Ends, RunsPast;
    if items == [] {
      assert [] + tail == tail;
      TailIs(req, i, o);
    } else {
      var x, rest := items[0], items[1..];
      ListFront(items, tail);
      LastFront(items, o.kind, o.requested);
      hide ListBytes, LastKind, LastRequested;
      BehindAll(req, i, ItemBytes(x), ListBytes(rest) + tail);
      WalkItem(req, i, o, x);
      WalkFinds(req, i + |ItemBytes(x)|, Options(KindOf(x, o.kind), RequestedOf(x, o.requested)), rest, tail);
    }
  }

  lemma TailIs(req: seq<byte>, i: nat, o: Options)
    requires i <= |req|
    ensures Ends(req[i..]) ==> Walk(req, i, o) == Some(o)
    ensures RunsPast(req[i..]) ==> Walk(req, i, o) == None
  {
  }

  /** Every request is a list of items with one of the two endings. */
  lemma {:induction false} EveryRequest(req: seq<byte>, i: nat) returns (items: seq<Item>, tail: seq<byte>)
    requires i <= |req|
    ensures AllItems(items) && req[i..] == ListBytes(items) + tail && (Ends(tail) || RunsPast(tail))
    decreases |req| - i
  {
    items, tail := [], req[i..];
    if Ends(tail) || RunsPast(tail) {
      return;
    }
    var x := FirstItem(req, i);
    var b := ItemBytes(x);
    hide ItemBytes, ListBytes, IsItem;
    assert req[i..] == b + req[i + |b|..];
    var rest;
    rest, tail := EveryRequest(req, i + |b|);
    items := [x] + rest;
    assert items[1..] == rest;
    ListFront(items, tail);
  }

  lemma FirstItem(req: seq<byte>, i: nat) returns (x: Item)
    requires i <= |req| && !Ends(req[i..]) && !RunsPast(req[i..])
    ensures IsItem(x) && i + |ItemBytes(x)| <= |req| && ItemBytes(x) == req[i..i + |ItemBytes(x)|]
  {
    if req[i] == 0 {
      x := Pad;
    } else {
      x := Opt(req[i], req[i + 2..i + 2 + req[i + 1]]);
    }
  }

  // ---- The code ----

  method WalkOptions(req: seq<byte>) returns (r: Option<Options>)
    requires |req| >= OPTIONS_OFFSET
    ensures r == Walk(req, OPTIONS_OFFSET, Options(0, 0))
  {
    var kind, requested: u32 := 0, 0;
    var i := OPTIONS_OFFSET;
    while i < |req|
      invariant OPTIONS_OFFSET <= i
      invariant Walk(req, i, Options(kind, requested)) == Walk(req, OPTIONS_OFFSET, Options(0, 0))
      decreases |req| - i
    {
      var code := req[i];
      if code == 255 {
        break;
      }
      if code == 0 {
        i := i + 1;
        continue;
      }
      if i + 2 > |req| {
        return None;
      }
      var n := req[i + 1];
      if i + 2 + n > |req| {
        return None;
      }
      if code == 53 && n == 1 {
        kind := req[i + 2];
      }
      if code == 50 && n == 4 {
        requested := Get32(req, i + 2);
      }
      i := i + 2 + n;
    }
    return Some(Options(kind, requested));
  }
}
