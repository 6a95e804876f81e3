/**
 * The client table shared by the two chat servers of hw10: `Client[MAX_CLIENT]`
 * with an in-use flag, a socket descriptor and a user id per slot, the
 * recipient rule of a broadcast and the "uid> msg" line.
 */
module ChatCommon {
  const MaxClient := 5
  const MaxId := 32
  const MaxBuf := 256

  /**
   * What one recv call reports: the byte count `n` (negative on error, zero
   * when the peer closed) and, when n > 0, the text received (its bytes up
   * to the terminator the client sends).
   */
  datatype Recv = Recv(n: int, data: string)

  /**
   * The formatted line and its terminator fit the MAX_BUF + MAX_ID bytes the
   * servers format into; longer input would overflow that buffer.
   */
  predicate LineFits(uid: string, msg: string)
  {
    |uid| + 2 + |msg| + 1 <= MaxBuf + MaxId
  }

  /** The line `sprintf("%s> %s", uid, msg)` produces. */
  function FormatLine(uid: string, msg: string): (line: string)
    ensures |line| == |uid| + 2 + |msg|
    ensures line[..|uid|] == uid && line[|uid|..|uid| + 2] == "> " && line[|uid| + 2..] == msg
    ensures LineFits(uid, msg) ==> |line| + 1 <= MaxBuf + MaxId
  {
    uid + "> " + msg
  }

  /**
   * The slots a message from `sender` goes to, in the order the send loop
   * visits them: each slot in use, except the sender's own.
   */
  function Recipients(inUse: seq<bool>, sender: int): seq<int>
    decreases |inUse|
  {
    if |inUse| == 0 then []
    else
      var last := |inUse| - 1;
      Recipients(inUse[..last], sender) + (if inUse[last] && last != sender then [last] else [])
  }

  /** Exactly the in-use slots other than the sender receive the message. */
  lemma {:induction false} RecipientsMembers(inUse: seq<bool>, sender: int)
    ensures forall k :: k in Recipients(inUse, sender) <==> 0 <= k < |inUse| && inUse[k] && k != sender
    decreases |inUse|
  {
    if |inUse| > 0 {
      RecipientsMembers(inUse[..|inUse| - 1], sender);
    }
  }

  /** Recipients are visited in strictly ascending slot order, so none twice. */
  lemma {:induction false} RecipientsAscending(inUse: seq<bool>, sender: int)
    ensures forall a, b :: 0 <= a < b < |Recipients(inUse, sender)| ==>
      Recipients(inUse, sender)[a] < Recipients(inUse, sender)[b]
    decreases |inUse|
  {
    if |inUse| > 0 {
      var last := |inUse| - 1;
      var front := Recipients(inUse[..last], sender);
      RecipientsAscending(inUse[..last], sender);
      RecipientsMembers(inUse[..last], sender);
      forall a | 0 <= a < |front|
        ensures front[a] < last
      {
        assert front[a] in front;
      }
    }
  }

  /** The slots in use, in ascending order (no slot is excluded). */
  function Occupied(inUse: seq<bool>): seq<int>
  {
    Recipients(inUse, -1)
  }

  /** The sender is never among its own recipients; an in-use sender is the only slot left out. */
  lemma RecipientsExcludeSender(inUse: seq<bool>, sender: int)
    requires 0 <= sender < |inUse|
    ensures sender !in Recipients(inUse, sender)
    ensures inUse[sender] ==> |Recipients(inUse, sender)| + 1 == |Occupied(inUse)|
  {
    RecipientsMembers(inUse, sender);
    if inUse[sender] {
      RecipientsOneFewer(inUse, sender);
    }
  }

  /** Excluding an in-use sender removes exactly one slot from the list. */
  lemma {:induction false} RecipientsOneFewer(inUse: seq<bool>, sender: int)
    requires 0 <= sender < |inUse| && inUse[sender]
    ensures |Recipients(inUse, sender)| + 1 == |Recipients(inUse, -1)|
    decreases |inUse|
  {
    var last := |inUse| - 1;
    if sender < last {
      RecipientsOneFewer(inUse[..last], sender);
    } else {
      RecipientsIgnoreOutside(inUse[..last], sender, -1);
    }
  }

  /** A sender outside the table excludes nothing. */
  lemma {:induction false} RecipientsIgnoreOutside(inUse: seq<bool>, s1: int, s2: int)
    requires (s1 < 0 || s1 >= |inUse|) && (s2 < 0 || s2 >= |inUse|)
    ensures Recipients(inUse, s1) == Recipients(inUse, s2)
    decreases |inUse|
  {
    if |inUse| > 0 {
      RecipientsIgnoreOutside(inUse[..|inUse| - 1], s1, s2);
    }
  }

  /** The lowest free slot, or -1 when every slot is in use. */
  function FirstFree(inUse: seq<bool>): (r: int)
    ensures -1 <= r < |inUse|
    ensures r == -1 <==> forall k :: 0 <= k < |inUse| ==> inUse[k]
    ensures r >= 0 ==> !inUse[r] && forall k :: 0 <= k < r ==> inUse[k]
    decreases |inUse|
  {
    if |inUse| == 0 then -1
    else if !inUse[0] then 0
    else
      var rest := FirstFree(inUse[1..]);
      if rest == -1 then -1 else rest + 1
  }

  /** `Client[MAX_CLIENT]`: one row per slot, stored column by column. */
  class SlotTable {
    const inUse: array<bool>
    const sockfd: array<int>
    const uid: array<string>

    predicate Valid()
      reads this
    {
      inUse.Length == MaxClient && sockfd.Length == MaxClient && uid.Length == MaxClient
    }

    /** A table in static storage starts zeroed: every slot free, fd 0, empty id. */
    constructor ()
      ensures Valid()
      ensures fresh(inUse) && fresh(sockfd) && fresh(uid)
      ensures forall i :: 0 <= i < MaxClient ==> !inUse[i] && sockfd[i] == 0 && uid[i] == ""
    {
      inUse := new bool[MaxClient](_ => false);
      sockfd := new int[MaxClient](_ => 0);
      uid := new string[MaxClient](_ => "");
    }
  }
}
