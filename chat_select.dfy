/**
 * The single-threaded chat server of hw10/chats_select.c: the table scans of
 * its select loop, the broadcast that drops recipients whose send fails, and
 * the shutdown sweep. Socket results are inputs: `Recv` values for the recv
 * calls and one success flag per recipient for the send calls.
 */
module ChatSelect {
  import opened ChatCommon

  /** Every slot free, with no socket (-1) and an empty id. */
  method InitSlots(t: SlotTable)
    requires t.Valid()
    modifies t.inUse, t.sockfd, t.uid
    ensures forall i :: 0 <= i < MaxClient ==> !t.inUse[i] && t.sockfd[i] == -1 && t.uid[i] == ""
  {
    var i := 0;
    while i < MaxClient
      invariant 0 <= i <= MaxClient
      invariant forall j :: 0 <= j < i ==> !t.inUse[j] && t.sockfd[j] == -1 && t.uid[j] == ""
    {
      t.sockfd[i] := -1;
      t.inUse[i] := false;
      t.uid[i] := "";
      i := i + 1;
    }
  }

  /**
   * The highest descriptor select must watch: the listening socket and every
   * in-use slot's socket are at most `maxFd`, and `maxFd` is one of them.
   */
  method MaxFd(t: SlotTable, listenFd: int) returns (maxFd: int)
    requires t.Valid()
    ensures maxFd >= listenFd
    ensures forall i :: 0 <= i < MaxClient && t.inUse[i] ==> t.sockfd[i] <= maxFd
    ensures maxFd == listenFd || exists i :: 0 <= i < MaxClient && t.inUse[i] && maxFd == t.sockfd[i]
  {
    maxFd := listenFd;
    var i := 0;
    while i < MaxClient
      invariant 0 <= i <= MaxClient
      invariant maxFd >= listenFd
      invariant forall j :: 0 <= j < i && t.inUse[j] ==> t.sockfd[j] <= maxFd
      invariant maxFd == listenFd || exists j :: 0 <= j < i && t.inUse[j] && maxFd == t.sockfd[j]
    {
      if t.inUse[i] {
        if t.sockfd[i] > maxFd {
          maxFd := t.sockfd[i];
        }
      }
      i := i + 1;
    }
  }

  /** What happens to a new connection. */
  datatype AcceptOutcome =
    | Joined(slot: int)           // slot claimed and id received
    | HandshakeFailed(slot: int)  // id read returned <= 0: socket closed, slot freed
    | Rejected(notice: string)    // no free slot: notice sent, socket closed

  const FullNotice := "Server is full\n"

  /**
   * The accept branch: claim the lowest free slot for `newFd` and read the
   * client's id into it (`r` is that recv's result); give the slot back if
   * the read fails; with no free slot, send the notice and keep the table.
   */
  method Accept(t: SlotTable, newFd: int, r: Recv) returns (outcome: AcceptOutcome)
    requires t.Valid()
    requires r.n > 0 ==> |r.data| < MaxId
    modifies t.inUse, t.sockfd, t.uid
    ensures var free := FirstFree(old(t.inUse[..]));
      if free == -1 then
        outcome == Rejected(FullNotice) &&
        t.inUse[..] == old(t.inUse[..]) && t.sockfd[..] == old(t.sockfd[..]) && t.uid[..] == old(t.uid[..])
      else
        t.sockfd[..] == old(t.sockfd[..])[free := newFd] &&
        (r.n > 0 ==> outcome == Joined(free) &&
                     t.inUse[..] == old(t.inUse[..])[free := true] &&
                     t.uid[..] == old(t.uid[..])[free := r.data]) &&
        (r.n <= 0 ==> outcome == HandshakeFailed(free) &&
                      t.inUse[..] == old(t.inUse[..]) && t.uid[..] == old(t.uid[..]))
  {
    outcome := Rejected(FullNotice);
    var i := 0;
    while i < MaxClient
      invariant 0 <= i <= MaxClient
      invariant forall j :: 0 <= j < i ==> t.inUse[j]
      invariant t.inUse[..] == old(t.inUse[..]) && t.sockfd[..] == old(t.sockfd[..]) && t.uid[..] == old(t.uid[..])
    {
      if !t.inUse[i] {
        t.sockfd[i] := newFd;
        t.inUse[i] := true;
        if r.n <= 0 {
          t.inUse[i] := false;
          outcome := HandshakeFailed(i);
        } else {
          t.uid[i] := r.data;
          outcome := Joined(i);
        }
        assert i == FirstFree(old(t.inUse[..]));
        break;
      }
      i := i + 1;
    }
    if i == MaxClient {
      outcome := Rejected(FullNotice);
    }
  }

  /**
   * BroadcastMessage: format the sender's line and send it to every in-use
   * slot but the sender's, in slot order (`sendOk[j]` is whether the send to
   * slot j succeeds). A failed send closes and frees that recipient only;
   * the loop goes on to the later slots.
   */
  method Broadcast(t: SlotTable, sender: int, msg: string, sendOk: seq<bool>)
    returns (line: string, attempted: seq<int>)
    requires t.Valid() && 0 <= sender < MaxClient && |sendOk| == MaxClient
    requires LineFits(t.uid[sender], msg)
    modifies t.inUse
    ensures line == FormatLine(t.uid[sender], msg)
    ensures attempted == Recipients(old(t.inUse[..]), sender)
    ensures forall j :: 0 <= j < MaxClient ==> t.inUse[j] == (old(t.inUse[j]) && (j == sender || sendOk[j]))
  {
    line := t.uid[sender] + "> " + msg;
    attempted := [];
    ghost var before := t.inUse[..];
    var i := 0;
    while i < MaxClient
      invariant 0 <= i <= MaxClient
      invariant attempted == Recipients(before[..i], sender)
      invariant forall j :: 0 <= j < i ==> t.inUse[j] == (before[j] && (j == sender || sendOk[j]))
      invariant forall j :: i <= j < MaxClient ==> t.inUse[j] == before[j]
    {
      assert before[..i + 1][..i] == before[..i];
      assert Recipients(before[..i + 1], sender) ==
        Recipients(before[..i], sender) + (if before[i] && i != sender then [i] else []);
      if t.inUse[i] && i != sender {
        attempted := attempted + [i];
        if !sendOk[i] {
          t.inUse[i] := false;
        }
      }
      i := i + 1;
    }
    assert before[..MaxClient] == before;
  }

  /**
   * The read branch of one pass of the select loop. Slot i is read when it is
   * still in use at its turn and select marked it readable (`ready[i]`);
   * `received[i]` is what that recv returns and `sendOk[i]` the send results of
   * the broadcast it triggers. A read of <= 0 bytes frees the slot; a
   * message is broadcast, which frees every recipient whose send fails.
   *
   * `served` lists the slots read, in order. A slot is read exactly when it
   * was in use, is ready and no earlier broadcast of the pass failed to reach
   * it; a slot stays in use exactly when it was in use, was not closed by its
   * own read and no broadcast of the pass failed to reach it.
   */
  method ServeReadable(t: SlotTable, ready: seq<bool>, received: seq<Recv>, sendOk: seq<seq<bool>>)
    returns (served: seq<int>)
    requires t.Valid()
    requires |ready| == MaxClient && |received| == MaxClient && |sendOk| == MaxClient
    requires forall i :: 0 <= i < MaxClient ==> |sendOk[i]| == MaxClient
    requires forall i :: 0 <= i < MaxClient && received[i].n > 0 ==> LineFits(t.uid[i], received[i].data)
    modifies t.inUse
    ensures forall s :: s in served ==> 0 <= s < MaxClient
    ensures forall a, b :: 0 <= a < b < |served| ==> served[a] < served[b]
    ensures forall j :: 0 <= j < MaxClient ==>
      (j in served <==>
        old(t.inUse[j]) && ready[j] &&
        forall s :: s in served && s < j && received[s].n > 0 ==> sendOk[s][j])
    ensures forall j :: 0 <= j < MaxClient ==>
      (t.inUse[j] <==>
        old(t.inUse[j]) && !(j in served && received[j].n <= 0) &&
        forall s :: s in served && s != j && received[s].n > 0 ==> sendOk[s][j])
  {
    served := [];
    ghost var before := t.inUse[..];
    var i := 0;
    while i < MaxClient
      invariant 0 <= i <= MaxClient
      invariant forall s :: s in served ==> 0 <= s < i
      invariant forall a, b :: 0 <= a < b < |served| ==> served[a] < served[b]
      invariant forall j :: 0 <= j < i ==> ReadRule(before, ready, received, sendOk, served, j)
      invariant forall j :: 0 <= j < MaxClient ==> OpenRule(t.inUse[j], before, received, sendOk, served, j)
    {
      served := ServeSlot(t, i, before, ready, received, sendOk, served);
      i := i + 1;
    }
    forall j | 0 <= j < MaxClient
      ensures j in served <==>
        before[j] && ready[j] &&
        forall s :: s in served && s < j && received[s].n > 0 ==> sendOk[s][j]
    {
      assert ReadRule(before, ready, received, sendOk, served, j);
    }
  }

  /** Slot j is read in the pass exactly when it was in use, is ready and no earlier broadcast failed to reach it. */
  ghost predicate ReadRule(before: seq<bool>, ready: seq<bool>, received: seq<Recv>, sendOk: seq<seq<bool>>,
                           served: seq<int>, j: int)
    requires |before| == MaxClient && |ready| == MaxClient && |received| == MaxClient && |sendOk| == MaxClient
    requires forall i :: 0 <= i < MaxClient ==> |sendOk[i]| == MaxClient
    requires forall s :: s in served ==> 0 <= s < MaxClient
    requires 0 <= j < MaxClient
  {
    j in served <==>
      before[j] && ready[j] &&
      forall s :: s in served && s < j && received[s].n > 0 ==> sendOk[s][j]
  }

  /** Slot j is open exactly when it was, its own read did not close it and every broadcast reached it. */
  ghost predicate OpenRule(open: bool, before: seq<bool>, received: seq<Recv>, sendOk: seq<seq<bool>>,
                           served: seq<int>, j: int)
    requires |before| == MaxClient && |received| == MaxClient && |sendOk| == MaxClient
    requires forall i :: 0 <= i < MaxClient ==> |sendOk[i]| == MaxClient
    requires forall s :: s in served ==> 0 <= s < MaxClient
    requires 0 <= j < MaxClient
  {
    open <==>
      before[j] && !(j in served && received[j].n <= 0) &&
      forall s :: s in served && s != j && received[s].n > 0 ==> sendOk[s][j]
  }

  /** One turn of the read loop, for slot i. */
  method ServeSlot(t: SlotTable, i: int, ghost before: seq<bool>, ready: seq<bool>, received: seq<Recv>,
                   sendOk: seq<seq<bool>>, served: seq<int>)
    returns (served': seq<int>)
    requires t.Valid() && 0 <= i < MaxClient && |before| == MaxClient
    requires |ready| == MaxClient && |received| == MaxClient && |sendOk| == MaxClient
    requires forall k :: 0 <= k < MaxClient ==> |sendOk[k]| == MaxClient
    requires forall k :: 0 <= k < MaxClient && received[k].n > 0 ==> LineFits(t.uid[k], received[k].data)
    requires forall s :: s in served ==> 0 <= s < i
    requires forall a, b :: 0 <= a < b < |served| ==> served[a] < served[b]
    requires forall j :: 0 <= j < i ==> ReadRule(before, ready, received, sendOk, served, j)
    requires forall j :: 0 <= j < MaxClient ==> OpenRule(t.inUse[j], before, received, sendOk, served, j)
    modifies t.inUse
    ensures forall s :: s in served' ==> 0 <= s < i + 1
    ensures forall a, b :: 0 <= a < b < |served'| ==> served'[a] < served'[b]
    ensures forall j :: 0 <= j < i + 1 ==> ReadRule(before, ready, received, sendOk, served', j)
    ensures forall j :: 0 <= j < MaxClient ==> OpenRule(t.inUse[j], before, received, sendOk, served', j)
  {
    if t.inUse[i] && ready[i] {
      assert forall a :: 0 <= a < |served| ==> served[a] in served;
      served' := served + [i];
      forall j | 0 <= j < i + 1
        ensures ReadRule(before, ready, received, sendOk, served', j)
      {
        if j < i {
          assert ReadRule(before, ready, received, sendOk, served, j);
        } else {
          assert OpenRule(t.inUse[i], before, received, sendOk, served, i);
        }
      }
      if received[i].n <= 0 {
        t.inUse[i] := false;
      } else {
        var _, _ := Broadcast(t, i, received[i].data, sendOk[i]);
      }
    } else {
      served' := served;
      assert ReadRule(before, ready, received, sendOk, served', i) by {
        assert OpenRule(t.inUse[i], before, received, sendOk, served, i);
      }
    }
  }

  /**
   * CloseServer: close the listening socket, then the socket of every
   * in-use slot in slot order; `closed` lists the descriptors closed.
   */
  method Shutdown(t: SlotTable, listenFd: int) returns (closed: seq<int>, slots: seq<int>)
    requires t.Valid()
    ensures slots == Occupied(t.inUse[..])
    ensures forall k :: 0 <= k < |slots| ==> 0 <= slots[k] < MaxClient
    ensures |closed| == |slots| + 1 && closed[0] == listenFd
    ensures forall k :: 0 <= k < |slots| ==> closed[k + 1] == t.sockfd[slots[k]]
  {
    closed := [listenFd];
    slots := [];
    var i := 0;
    while i < MaxClient
      invariant 0 <= i <= MaxClient
      invariant slots == Occupied(t.inUse[..i])
      invariant |closed| == |slots| + 1 && closed[0] == listenFd
      invariant forall k :: 0 <= k < |slots| ==> 0 <= slots[k] < MaxClient && closed[k + 1] == t.sockfd[slots[k]]
    {
      assert t.inUse[..i + 1][..i] == t.inUse[..i];
      if t.inUse[i] {
        closed := closed + [t.sockfd[i]];
        slots := slots + [i];
      }
      i := i + 1;
    }
    assert t.inUse[..MaxClient] == t.inUse[..];
  }
}
