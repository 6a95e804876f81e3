/**
 * The thread-per-client chat server of hw10/chats.c: slot allocation by
 * GetID, the accept path of main, the login and receive steps of
 * ProcessClient, SendToOtherClients (where a failed send ends the whole
 * process) and the CloseServer sweep. Socket results are inputs.
 */
module ChatThreads {
  import opened ChatCommon

  /**
   * GetID: mark the lowest free slot in use and return it, or return -1 and
   * change nothing when all MAX_CLIENT slots are taken.
   */
  method GetID(t: SlotTable) returns (id: int)
    requires t.Valid()
    modifies t.inUse
    ensures id == FirstFree(old(t.inUse[..]))
    ensures id >= 0 ==> t.inUse[..] == old(t.inUse[..])[id := true]
    ensures id == -1 ==> t.inUse[..] == old(t.inUse[..])
  {
    var i := 0;
    while i < MaxClient
      invariant 0 <= i <= MaxClient
      invariant forall j :: 0 <= j < i ==> t.inUse[j]
      invariant t.inUse[..] == old(t.inUse[..])
    {
      if !t.inUse[i] {
        t.inUse[i] := true;
        return i;
      }
      i := i + 1;
    }
    return -1;
  }

  /**
   * One turn of main's accept loop after accept succeeded: a slot is taken
   * with GetID; on -1 the new socket is closed (`closedNew`) and no
   * descriptor is recorded, otherwise only that slot's descriptor is set.
   */
  method AcceptClient(t: SlotTable, newFd: int) returns (id: int, closedNew: bool)
    requires t.Valid()
    modifies t.inUse, t.sockfd
    ensures id == FirstFree(old(t.inUse[..]))
    ensures closedNew <==> id == -1
    ensures id == -1 ==> t.inUse[..] == old(t.inUse[..]) && t.sockfd[..] == old(t.sockfd[..])
    ensures id >= 0 ==>
      t.inUse[..] == old(t.inUse[..])[id := true] && t.sockfd[..] == old(t.sockfd[..])[id := newFd]
  {
    id := GetID(t);
    if id < 0 {
      closedNew := true;
      return;
    }
    closedNew := false;
    t.sockfd[id] := newFd;
  }

  /** Whether the process goes on after a step, or ends through exit(1). */
  datatype Status = Running | Exited

  /**
   * The id read at the start of ProcessClient: a negative recv ends the
   * process; a positive one stores the id; a zero-byte read leaves the
   * slot's id as it was and the thread goes on.
   */
  method Login(t: SlotTable, id: int, r: Recv) returns (status: Status)
    requires t.Valid() && 0 <= id < MaxClient
    requires r.n > 0 ==> |r.data| < MaxId
    modifies t.uid
    ensures status == Exited <==> r.n < 0
    ensures t.uid[..] == if r.n > 0 then old(t.uid[..])[id := r.data] else old(t.uid[..])
  {
    if r.n < 0 {
      return Exited;
    }
    if r.n > 0 {
      t.uid[id] := r.data;
    }
    return Running;
  }

  /**
   * SendToOtherClients: the line goes to the in-use slots other than `id` in
   * slot order; `sendOk[j]` is whether the send to slot j succeeds. The
   * first failed send ends the process, so `delivered` is the part of the
   * recipient list before that slot, and the table is never changed.
   */
  method SendToOtherClients(t: SlotTable, id: int, buf: string, sendOk: seq<bool>)
    returns (line: string, delivered: seq<int>, status: Status)
    requires t.Valid() && 0 <= id < MaxClient && |sendOk| == MaxClient
    requires LineFits(t.uid[id], buf)
    ensures line == FormatLine(t.uid[id], buf)
    ensures var all := Recipients(t.inUse[..], id);
      |delivered| <= |all| && delivered == all[..|delivered|] &&
      (forall k :: k in delivered ==> 0 <= k < MaxClient && sendOk[k]) &&
      (status == Running <==> delivered == all) &&
      (status == Exited ==>
        |delivered| < |all| && 0 <= all[|delivered|] < MaxClient && !sendOk[all[|delivered|]])
  {
    line := t.uid[id] + "> " + buf;
    delivered := [];
    status := Running;
    var i := 0;
    while i < MaxClient
      invariant 0 <= i <= MaxClient
      invariant delivered == Recipients(t.inUse[..i], id)
      invariant forall k :: k in delivered ==> 0 <= k < MaxClient && sendOk[k]
    {
      assert t.inUse[..i + 1][..i] == t.inUse[..i];
      if t.inUse[i] && i != id {
        if !sendOk[i] {
          PrefixOfRecipients(t.inUse[..], id, i);
          return line, delivered, Exited;
        }
        delivered := delivered + [i];
      }
      i := i + 1;
    }
    assert t.inUse[..MaxClient] == t.inUse[..];
  }

  /**
   * The recipients among the first i slots come first in the whole list,
   * and the next one is slot i when slot i is a recipient.
   */
  lemma PrefixOfRecipients(inUse: seq<bool>, sender: int, i: int)
    requires 0 <= i < |inUse| && inUse[i] && i != sender
    ensures var front, all := Recipients(inUse[..i], sender), Recipients(inUse, sender);
      |front| < |all| && all[..|front|] == front && all[|front|] == i
  {
    RecipientsSplit(inUse, sender, i + 1);
    assert inUse[..i + 1][..i] == inUse[..i];
  }

  /** The recipient list of a table is that of a prefix followed by more slots. */
  lemma {:induction false} RecipientsSplit(inUse: seq<bool>, sender: int, i: int)
    requires 0 <= i <= |inUse|
    ensures var front, all := Recipients(inUse[..i], sender), Recipients(inUse, sender);
      |front| <= |all| && all[..|front|] == front
    decreases |inUse|
  {
    if i < |inUse| {
      var last := |inUse| - 1;
      assert inUse[..last][..i] == inUse[..i];
      RecipientsSplit(inUse[..last], sender, i);
    } else {
      assert inUse[..i] == inUse;
    }
  }

  /** What the receive loop of ProcessClient did with one recv result. */
  datatype Received =
    | ReadFailed                                       // recv < 0: exit(1)
    | LoggedOut(line: string, delivered: seq<int>, status: Status)  // 0 bytes
    | Relayed(line: string, delivered: seq<int>, status: Status)    // a message

  const LogoutNotice := "log-out.....\n"

  /**
   * One iteration of the receive loop. A negative read ends the process. A
   * zero-byte read closes the slot and frees it, then tells the remaining
   * in-use slots with the log-out notice. A message is relayed to the other
   * clients and the slot stays as it was.
   */
  method Receive(t: SlotTable, id: int, r: Recv, sendOk: seq<bool>) returns (result: Received)
    requires t.Valid() && 0 <= id < MaxClient && |sendOk| == MaxClient
    requires LineFits(t.uid[id], LogoutNotice)
    requires r.n > 0 ==> LineFits(t.uid[id], r.data)
    modifies t.inUse
    ensures r.n < 0 ==> result == ReadFailed && t.inUse[..] == old(t.inUse[..])
    ensures r.n == 0 ==>
      result.LoggedOut? && t.inUse[..] == old(t.inUse[..])[id := false] &&
      result.line == FormatLine(t.uid[id], LogoutNotice) &&
      result.delivered <= Recipients(t.inUse[..], id) &&
      (result.status == Running <==> result.delivered == Recipients(t.inUse[..], id))
    ensures r.n > 0 ==>
      result.Relayed? && t.inUse[..] == old(t.inUse[..]) &&
      result.line == FormatLine(t.uid[id], r.data) &&
      result.delivered <= Recipients(t.inUse[..], id) &&
      (result.status == Running <==> result.delivered == Recipients(t.inUse[..], id))
    ensures !result.ReadFailed? ==>
      (forall k :: k in result.delivered ==> 0 <= k < MaxClient && sendOk[k]) &&
      (result.status == Exited ==>
        var all := Recipients(t.inUse[..], id);
        |result.delivered| < |all| && 0 <= all[|result.delivered|] < MaxClient &&
        !sendOk[all[|result.delivered|]])
  {
    if r.n < 0 {
      return ReadFailed;
    }
    if r.n == 0 {
      t.inUse[id] := false;
      var line, delivered, status := SendToOtherClients(t, id, LogoutNotice, sendOk);
      return LoggedOut(line, delivered, status);
    }
    var line, delivered, status := SendToOtherClients(t, id, r.data, sendOk);
    return Relayed(line, delivered, status);
  }

  /**
   * CloseServer: after the listening socket, every in-use slot in slot order
   * is cancelled, joined and closed; `visited` lists those slots and
   * `closed` the descriptors closed.
   */
  method Shutdown(t: SlotTable, listenFd: int) returns (visited: seq<int>, closed: seq<int>)
    requires t.Valid()
    ensures visited == Occupied(t.inUse[..])
    ensures |closed| == |visited| + 1 && closed[0] == listenFd
    ensures forall k :: 0 <= k < |visited| ==> 0 <= visited[k] < MaxClient && closed[k + 1] == t.sockfd[visited[k]]
  {
    closed := [listenFd];
    visited := [];
    var i := 0;
    while i < MaxClient
      invariant 0 <= i <= MaxClient
      invariant visited == Occupied(t.inUse[..i])
      invariant |closed| == |visited| + 1 && closed[0] == listenFd
      invariant forall k :: 0 <= k < |visited| ==> 0 <= visited[k] < MaxClient && closed[k + 1] == t.sockfd[visited[k]]
    {
      assert t.inUse[..i + 1][..i] == t.inUse[..i];
      if t.inUse[i] {
        visited := visited + [i];
        closed := closed + [t.sockfd[i]];
      }
      i := i + 1;
    }
    assert t.inUse[..MaxClient] == t.inUse[..];
  }
}
