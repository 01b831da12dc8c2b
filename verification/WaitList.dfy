/**
 The list of waiting requests in client/client.c and the four loops over it. Each is done under
 the client's wait_req_lock, so each is one step of the protocol in ClientWrite.
 */
module WaitList {
  import opened Errno

  /** cceph_client_wait_req; a request is known by its id, new entries go to the head. */
  datatype Entry = Entry(reqId: int, reqCount: int, ackCount: int, commitCount: int)

  /** The rule of is_req_finished; `/` in C truncates, which for counts is the same as here. */
  predicate Finished(e: Entry) {
    e.commitCount > 0 || e.ackCount > e.reqCount / 2
  }

  /** The place of the first entry of a request, or the length of the list. */
  ghost function Find(list: seq<Entry>, reqId: int): (i: nat)
    ensures i <= |list| && (i < |list| ==> list[i].reqId == reqId)
    ensures forall j :: 0 <= j < i ==> list[j].reqId != reqId
  {
    if list == [] || list[0].reqId == reqId then 0 else 1 + Find(list[1..], reqId)
  }

  lemma FindIs(list: seq<Entry>, reqId: int, i: nat)
    requires i <= |list| && (i < |list| ==> list[i].reqId == reqId)
    requires forall j :: 0 <= j < i ==> list[j].reqId != reqId
    ensures Find(list, reqId) == i
  {}

  /** The list after add_req_to_wait_list: the new entry comes first. */
  ghost function Add(list: seq<Entry>, reqId: int, reqCount: int): seq<Entry> {
    [Entry(reqId, reqCount, 0, 0)] + list
  }

  /** One more ack for the first entry of the request. */
  ghost function Acked(list: seq<Entry>, reqId: int): seq<Entry> {
    var i := Find(list, reqId);
    if i < |list| then list[i := list[i].(ackCount := list[i].ackCount + 1)] else list
  }

  /** The list without the first entry of the request. */
  ghost function Without(list: seq<Entry>, reqId: int): seq<Entry> {
    var i := Find(list, reqId);
    if i < |list| then list[..i] + list[i + 1..] else list
  }

  ghost predicate DistinctIds(list: seq<Entry>) {
    forall i, j :: 0 <= i < j < |list| ==> list[i].reqId != list[j].reqId
  }

  ghost predicate Listed(list: seq<Entry>, reqId: int) {
    Find(list, reqId) < |list|
  }

  /** The entry of a listed request. */
  ghost function EntryOf(list: seq<Entry>, reqId: int): Entry
    requires Listed(list, reqId)
  {
    list[Find(list, reqId)]
  }

  lemma OnlyEntry(list: seq<Entry>, reqId: int, i: nat)
    requires DistinctIds(list) && i < |list| && list[i].reqId == reqId
    ensures Find(list, reqId) == i
  {
    FindIs(list, reqId, i);
  }

  /** A new request gets a fresh entry and the others keep theirs. */
  lemma AddEntries(list: seq<Entry>, r: int, reqCount: int, q: int)
    requires DistinctIds(list) && !Listed(list, r)
    ensures DistinctIds(Add(list, r, reqCount))
    ensures Listed(Add(list, r, reqCount), q) <==> q == r || Listed(list, q)
    ensures Listed(Add(list, r, reqCount), q) ==>
      EntryOf(Add(list, r, reqCount), q) == if q == r then Entry(r, reqCount, 0, 0) else EntryOf(list, q)
  {}

  /** One ack changes the entry of its own request only. */
  lemma AckedEntries(list: seq<Entry>, r: int, q: int)
    requires DistinctIds(list)
    ensures DistinctIds(Acked(list, r))
    ensures Listed(Acked(list, r), q) <==> Listed(list, q)
    ensures Listed(list, q) ==>
      var e := EntryOf(list, q);
      EntryOf(Acked(list, r), q) == if q == r then e.(ackCount := e.ackCount + 1) else e
  {
    FindIs(Acked(list, r), q, Find(list, q));
  }

  /** With distinct ids, the removed request has no entry any more and the others keep theirs. */
  lemma WithoutEntries(list: seq<Entry>, r: int, q: int)
    requires DistinctIds(list)
    ensures DistinctIds(Without(list, r))
    ensures Listed(Without(list, r), q) <==> q != r && Listed(list, q)
    ensures q != r && Listed(list, q) ==> EntryOf(Without(list, r), q) == EntryOf(list, q)
  {
    var i, j := Find(list, r), Find(list, q);
    if i < |list| {
      FindIs(Without(list, r), q, if q == r then |list| - 1 else if j > i then j - 1 else j);
    }
  }

  /** Whether the thread waiting for a request whose ack has just been counted is signalled. */
  ghost predicate Signals(list: seq<Entry>, reqId: int, checkDuplicates: bool) {
    var i := Find(list, reqId);
    i < |list| && var l := Acked(list, reqId); var e := l[if checkDuplicates then |l| - 1 else i];
    e.ackCount > e.reqCount / 2
  }

  class WaitReqList {
    var list: seq<Entry>

    constructor ()
      ensures list == []
    {
      list := [];
    }

    /** add_req_to_wait_list */
    method AddReq(reqId: int, reqCount: int)
      modifies this
      ensures list == Add(old(list), reqId, reqCount)
    {
      list := [Entry(reqId, reqCount, 0, 0)] + list;
    }

    /** do_object_write_ack: the first entry of the request counts the ack, unless the ack is for
        another client. `checkDuplicates` is the option client_debug_check_duplicate_req_when_ack,
        under which the loop runs on to the end; whether to signal is then decided by the entry
        that it saw last. */
    method WriteAck(clientId: int, ackClientId: int, reqId: int, checkDuplicates: bool) returns (ret: int, signalled: bool)
      modifies this
      ensures ret == if ackClientId == clientId then OK else ERR_WRONG_CLIENT_ID
      ensures list == if ackClientId == clientId then Acked(old(list), reqId) else old(list)
      ensures signalled <==> ackClientId == clientId && Signals(old(list), reqId, checkDuplicates)
    {
      if ackClientId != clientId {
        return ERR_WRONG_CLIENT_ID, false;
      }
      var found := false;
      var waitReq := Entry(0, 0, 0, 0);
      var pos := 0;
      while pos < |list|
        invariant 0 <= pos <= |list| == |old(list)|
        invariant !found ==> list == old(list) && forall j :: 0 <= j < pos ==> list[j].reqId != reqId
        invariant found ==> Find(old(list), reqId) < pos && list == Acked(old(list), reqId)
        invariant found ==> checkDuplicates && waitReq == list[pos - 1]
      {
        waitReq := list[pos];
        if waitReq.reqId == reqId && !found {
          FindIs(list, reqId, pos);
          found := true;
          waitReq := waitReq.(ackCount := waitReq.ackCount + 1);
          list := list[pos := waitReq];
          if !checkDuplicates {
            return OK, waitReq.ackCount > waitReq.reqCount / 2;
          }
        }
        pos := pos + 1;
      }
      if !found {
        FindIs(list, reqId, pos);
        return OK, false;
      }
      ret := OK;
      signalled := waitReq.ackCount > waitReq.reqCount / 2;
    }

    /** is_req_finished: a finished request leaves the list. */
    method TakeIfFinished(reqId: int) returns (finished: bool)
      requires DistinctIds(list)
      modifies this
      ensures var i := Find(old(list), reqId); finished <==> i < |old(list)| && Finished(old(list)[i])
      ensures list == if finished then Without(old(list), reqId) else old(list)
    {
      hide DistinctIds;
      var pos := 0;
      while pos < |list|
        invariant 0 <= pos <= |list| && list == old(list)
        invariant forall j :: 0 <= j < pos ==> list[j].reqId != reqId || !Finished(list[j])
      {
        if list[pos].reqId == reqId && (list[pos].commitCount > 0 || list[pos].ackCount > list[pos].reqCount / 2) {
          OnlyEntry(list, reqId, pos);
          list := list[..pos] + list[pos + 1..];
          return true;
        }
        pos := pos + 1;
      }
      finished := false;
    }

    /** remove_req_from_wait_list */
    method RemoveReq(reqId: int)
      modifies this
      ensures list == Without(old(list), reqId)
    {
      var pos := 0;
      while pos < |list|
        invariant 0 <= pos <= |list| && list == old(list)
        invariant forall j :: 0 <= j < pos ==> list[j].reqId != reqId
      {
        if list[pos].reqId == reqId {
          FindIs(list, reqId, pos);
          list := list[..pos] + list[pos + 1..];
          return;
        }
        pos := pos + 1;
      }
      FindIs(list, reqId, pos);
    }
  }

  /** A count that completes the majority of a request is signalled when the duplicate check is
      off. With the check on, as it is by default, the signal is missed exactly when the last
      entry of the list is of another request that has no majority. */
  lemma SignalMissed(list: seq<Entry>, r: int)
    requires DistinctIds(list) && Listed(list, r) && EntryOf(list, r).ackCount + 1 > EntryOf(list, r).reqCount / 2
    ensures Signals(list, r, false)
    ensures var last := list[|list| - 1];
      !Signals(list, r, true) <==> last.reqId != r && last.ackCount <= last.reqCount / 2
  {
    assert list[Find(list, r)].reqId == r;
  }

  /** Of a request that no one has committed, more than half is a majority, also of an odd count. */
  lemma FinishedMajority(e: Entry)
    requires e.commitCount == 0 && e.reqCount >= 0
    ensures Finished(e) <==> 2 * e.ackCount > e.reqCount
  {}
}
