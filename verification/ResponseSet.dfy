/** lib/responseset.c: request ids that are reused once their response has been fetched. */
module ResponseSets {
  import opened Basics
  import opened Encoders

  const RESPONSE_SET_GROW := 8

  /** The contents of a response set. */
  datatype Slots<T> = Slots(pending: seq<bool>, response: seq<Option<T>>, next: nat)

  ghost predicate WellFormed<T>(s: Slots<T>, maxRequestId: nat) {
    && |s.pending| == |s.response| && s.next < |s.pending|
    && (|s.pending| == RESPONSE_SET_GROW || RESPONSE_SET_GROW < |s.pending| < maxRequestId)
  }

  /** How many slots from `next` on, going round, are pending; all of them if none is free. */
  function Scan(pending: seq<bool>, next: nat, from: nat): (k: nat)
    requires next < |pending| && from <= |pending|
    ensures from <= k <= |pending|
    ensures forall j :: from <= j < k ==> pending[Slot(next, j, |pending|)]
    ensures k < |pending| ==> !pending[Slot(next, k, |pending|)]
    decreases |pending| - from
  {
    if from < |pending| && pending[Slot(next, from, |pending|)] then Scan(pending, next, from + 1) else from
  }

  function Full<T>(s: Slots<T>): bool
    requires s.next < |s.pending|
  {
    Scan(s.pending, s.next, 0) == |s.pending|
  }

  /** The id getRequestId reserves, unless every id is in use and the set cannot grow. */
  function Reserve<T>(s: Slots<T>, maxRequestId: nat): (r: Option<nat>)
    requires s.next < |s.pending|
  {
    if !Full(s) then Some(Slot(s.next, Scan(s.pending, s.next, 0), |s.pending|))
    else if |s.pending| + RESPONSE_SET_GROW >= maxRequestId then None
    else Some(|s.pending|)
  }

  /** The set with room for 8 more ids, all free. */
  function Grown<T>(s: Slots<T>): Slots<T> {
    s.(pending := s.pending + seq(RESPONSE_SET_GROW, _ => false),
       response := s.response + seq(RESPONSE_SET_GROW, _ => None))
  }

  /** The set with a slot in use and empty, the search going on behind it next time. */
  function Claimed<T>(s: Slots<T>, id: nat): Slots<T>
    requires id < |s.pending| == |s.response|
  {
    Slots(s.pending[id := true], s.response[id := None], Slot(id, 1, |s.pending|))
  }

  /** The set with the id reserved, grown for it if need be. */
  function Reserved<T>(s: Slots<T>, id: nat): Slots<T>
    requires |s.pending| == |s.response| && id < |s.pending| + RESPONSE_SET_GROW
  {
    Claimed(if id < |s.pending| then s else Grown(s), id)
  }

  /** Reserving gives an id that was free, keeps every other slot, grows only when every slot
      is in use, and fails only when in addition the set cannot grow; with the 16-bit limit of
      the protocol the id sent, one more, fits 16 bits and is not 0. */
  lemma ReserveSound<T>(s: Slots<T>, maxRequestId: nat)
    requires WellFormed(s, maxRequestId)
    ensures Reserve(s, maxRequestId) == None <==>
      (forall i :: 0 <= i < |s.pending| ==> s.pending[i]) && |s.pending| + RESPONSE_SET_GROW >= maxRequestId
    ensures Reserve(s, maxRequestId).Some? ==>
      var id := Reserve(s, maxRequestId).value;
      var t := Reserved(s, id);
      && WellFormed(t, maxRequestId)
      && (id < |s.pending| ==> !s.pending[id] && |t.pending| == |s.pending|)
      && (id >= |s.pending| ==> id == |s.pending| && forall i :: 0 <= i < |s.pending| ==> s.pending[i])
      && t.pending[id] && t.response[id] == None && t.next == (if id + 1 == |t.pending| then 0 else id + 1)
      && (forall i :: 0 <= i < |s.pending| && i != id ==>
            t.pending[i] == s.pending[i] && t.response[i] == s.response[i])
      && (forall i :: |s.pending| <= i < |t.pending| && i != id ==> !t.pending[i])
      && (maxRequestId == 0xffff ==> 1 <= id + 1 <= 0xffff)
  {
    ScanCovers(s.pending, s.next);
  }

  /** Of several free ids it is the one nearest behind the last one reserved, going round. */
  lemma ReserveNearest<T>(s: Slots<T>, maxRequestId: nat, i: nat)
    requires WellFormed(s, maxRequestId) && i < |s.pending| && !s.pending[i]
    ensures Reserve(s, maxRequestId).Some?
    ensures var id := Reserve(s, maxRequestId).value;
      id < |s.pending| && (id - s.next) % |s.pending| <= (i - s.next) % |s.pending|
  {
    var n, k := |s.pending|, Scan(s.pending, s.next, 0);
    ScanCovers(s.pending, s.next);
    var j := if i >= s.next then i - s.next else i + n - s.next;
    assert Slot(s.next, j, n) == i;
    var id := Slot(s.next, k, n);
    assert k <= j;
    assert (i - s.next) % n == j by { Nearness(s.next, j, n); }
    assert (id - s.next) % n == k by { Nearness(s.next, k, n); }
  }

  lemma Nearness(next: nat, j: nat, n: nat)
    requires next < n && j < n
    ensures (Slot(next, j, n) - next) % n == j
  {
  }

  lemma ReserveWellFormed<T>(s: Slots<T>, maxRequestId: nat)
    requires WellFormed(s, maxRequestId)
    ensures Reserve(s, maxRequestId).Some? ==>
      WellFormed(Reserved(s, Reserve(s, maxRequestId).value), maxRequestId)
    ensures |Grown(s).pending| == |Grown(s).response| == |s.pending| + RESPONSE_SET_GROW
    ensures !Grown(s).pending[|s.pending|]
  {
    ReserveSound(s, maxRequestId);
  }

  /** When the scan comes round, it has seen every slot. */
  lemma ScanCovers(pending: seq<bool>, next: nat)
    requires next < |pending|
    ensures Scan(pending, next, 0) == |pending| <==> forall i :: 0 <= i < |pending| ==> pending[i]
  {
    if Scan(pending, next, 0) == |pending| {
      forall i | 0 <= i < |pending| ensures pending[i] {
        var j := if i >= next then i - next else i + |pending| - next;
        assert Slot(next, j, |pending|) == i;
      }
    }
  }

  /** OutOfBounds: the source would read behind its arrays. */
  datatype Stored = Done | Refused | OutOfBounds

  class ResponseSet<T> {
    var responsePending: array<bool>
    var response: array<Option<T>>
    const maxRequestId: nat
    var nextRequestId: nat
    var setSize: nat

    ghost predicate Valid()
      reads this, responsePending, response
    {
      responsePending.Length == setSize == response.Length && WellFormed(View(), maxRequestId)
    }

    ghost function View(): Slots<T>
      reads this, responsePending, response
    {
      Slots(responsePending[..], response[..], nextRequestId)
    }

    constructor (maxRequestId: nat)
      ensures Valid() && this.maxRequestId == maxRequestId
      ensures View() == Slots(seq(RESPONSE_SET_GROW, _ => false), seq(RESPONSE_SET_GROW, _ => None), 0)
    {
      this.maxRequestId := maxRequestId;
      responsePending := new bool[RESPONSE_SET_GROW](_ => false);
      response := new Option<T>[RESPONSE_SET_GROW](_ => None);
      nextRequestId, setSize := 0, RESPONSE_SET_GROW;
    }

    method Grow()
      requires responsePending.Length == setSize == response.Length
      modifies this`responsePending, this`response, this`setSize
      ensures View() == Grown(old(View())) && setSize == old(setSize) + RESPONSE_SET_GROW
      ensures responsePending.Length == setSize == response.Length
      ensures fresh(responsePending) && fresh(response)
    {
      var p, r, n := responsePending, response, setSize;
      responsePending := new bool[n + RESPONSE_SET_GROW](
        i requires 0 <= i reads this, p => if i < p.Length then p[i] else false);
      response := new Option<T>[n + RESPONSE_SET_GROW](
        i requires 0 <= i reads this, r => if i < r.Length then r[i] else None);
      setSize := n + RESPONSE_SET_GROW;
    }

    /** SVR_ResponseSet_getRequestId: -1 when it fails. (The source then keeps the lock.) */
    method GetRequestId() returns (id: int)
      requires Valid()
      modifies this, responsePending, response
      ensures Valid()
      ensures var r := Reserve(old(View()), maxRequestId);
        match r
        case None => id == -1 && View() == old(View())
        case Some(free) => id == free && View() == Reserved(old(View()), free)
    {
      hide Grown, Claimed;
      ghost var s, k := View(), 0;
      var responseId := nextRequestId;
      ReserveWellFormed(s, maxRequestId);
      while responsePending[responseId]
        invariant 0 <= k <= |s.pending| && setSize == |View().pending| == responsePending.Length == response.Length
        invariant responsePending == old(responsePending) || fresh(responsePending)
        invariant response == old(response) || fresh(response)
        invariant nextRequestId == s.next && responseId < setSize
        invariant k < |s.pending| ==> View() == s && responseId == Slot(s.next, k, |s.pending|)
        invariant Scan(s.pending, s.next, 0) == Scan(s.pending, s.next, k)
        invariant k == |s.pending| ==>
          |s.pending| + RESPONSE_SET_GROW < maxRequestId && View() == Grown(s) && responseId == |s.pending|
        decreases |s.pending| - k
      {
        SlotIsModulo(responseId, 1, setSize);
        responseId := (responseId + 1) % setSize;
        k := k + 1;
        if responseId == nextRequestId {
          if setSize + RESPONSE_SET_GROW >= maxRequestId {
            return -1;
          }
          responseId := setSize;
          Grow();
        }
      }
      Claim(responseId);
      id := responseId;
    }

    method Claim(id: nat)
      requires id < setSize == responsePending.Length == response.Length
      modifies this`nextRequestId, responsePending, response
      ensures View() == Claimed(old(View()), id)
    {
      SlotIsModulo(id, 1, setSize);
      nextRequestId := (id + 1) % setSize;
      responsePending[id] := true;
      response[id] := None;
    }

    /** SVR_ResponseSet_getResponse, once the response is there. */
    method GetResponse(id: nat) returns (r: T)
      requires Valid() && id < setSize && response[id].Some?
      modifies responsePending
      ensures Valid() && r == old(View()).response[id].value
      ensures View() == old(View()).(pending := old(View()).pending[id := false])
    {
      r := response[id].value;
      responsePending[id] := false;
    }

    /** SVR_ResponseSet_setResponse. */
    method SetResponse(id: nat, r: T) returns (stored: Stored)
      requires Valid()
      modifies response
      ensures Valid()
      ensures stored == if id >= setSize then OutOfBounds else if old(View()).pending[id] then Done else Refused
      ensures View() == if stored == Done then old(View()).(response := old(View()).response[id := Some(r)])
                        else old(View())
    {
      if id >= setSize {
        return OutOfBounds;
      }
      if responsePending[id] {
        response[id] := Some(r);
        stored := Done;
      } else {
        stored := Refused;
      }
    }
  }
}
