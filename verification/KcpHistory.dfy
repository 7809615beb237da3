/** Messages as fragments: what ikcp_send cuts, ikcp_peeksize measures and
    ikcp_recv puts together again. */
module KcpHistory {
  import opened Bytes
  import opened KcpModel

  /** What a segment carries, without its numbers. */
  function Plain(x: Seg): Seg {
    NewSeg(x.frg, x.data)
  }

  function Plains(q: seq<Seg>): (r: seq<Seg>)
    ensures |r| == |q| && forall i :: 0 <= i < |q| ==> r[i] == Plain(q[i])
  {
    seq(|q|, i requires 0 <= i < |q| => Plain(q[i]))
  }

  /** The fragments of one message in message mode. */
  function Pieces(mss: int, message: seq<Byte>): (r: seq<Seg>)
    requires mss > 0
    ensures r != []
  {
    Fragments(mss, message, FragmentCount(mss, |message|), false)
  }

  /** Every fragment ever queued, in order. */
  function History(mss: int, messages: seq<seq<Byte>>): seq<Seg>
    requires mss > 0
  {
    if messages == [] then [] else History(mss, messages[..|messages| - 1]) + Pieces(mss, messages[|messages| - 1])
  }

  /** What ikcp_send accepts. */
  predicate Short(mss: int, message: seq<Byte>)
    requires mss > 0
  {
    FragmentCount(mss, |message|) < WND_RCV
  }

  // ----- fragments -----

  lemma {:induction false} FragmentNumbers(mss: int, data: seq<Byte>, count: nat)
    requires mss > 0
    ensures forall i :: 0 <= i < count ==>
      Fragments(mss, data, count, false)[i] == Plain(Fragments(mss, data, count, false)[i])
    ensures forall i :: 0 <= i < count ==> Fragments(mss, data, count, false)[i].frg == count - 1 - i
    decreases count
  {
    if count > 0 {
      FragmentNumbers(mss, data[Min(|data|, mss)..], count - 1);
    }
  }

  /** Enough pieces hold all the data. */
  lemma {:induction false} FragmentsMerge(mss: int, data: seq<Byte>, count: nat)
    requires mss > 0 && |data| <= count * mss
    ensures Merge(Fragments(mss, data, count, false)) == data
    decreases count
  {
    if count == 0 {
      assert data == [];
    } else {
      var size := Min(|data|, mss);
      assert |data| - mss <= (count - 1) * mss;
      assert 0 <= (count - 1) * mss;
      FragmentsMerge(mss, data[size..], count - 1);
      assert data[..size] + data[size..] == data;
    }
  }

  lemma Enough(mss: int, len: nat)
    requires mss > 0
    ensures len <= FragmentCount(mss, len) * mss
  {
    var q, r := (len + mss - 1) / mss, (len + mss - 1) % mss;
    assert len + mss - 1 == q * mss + r;
  }

  /** The pieces of a message put together are the message, and only the last
      one is numbered 0. */
  lemma PiecesMerge(mss: int, message: seq<Byte>)
    requires mss > 0
    ensures Merge(Pieces(mss, message)) == message
    ensures var p := Pieces(mss, message); forall i :: 0 <= i < |p| ==> p[i] == Plain(p[i]) && p[i].frg == |p| - 1 - i
  {
    hide Fragments, FragmentCount;
    var count := FragmentCount(mss, |message|);
    Enough(mss, |message|);
    FragmentsMerge(mss, message, count);
    FragmentNumbers(mss, message, count);
  }

  // ----- reading from the receive queue -----

  /** A list that begins with one whole message: fragments numbered down to 0. */
  predicate Begins(q: seq<Seg>, n: nat) {
    0 < n <= |q| && forall i :: 0 <= i < n ==> q[i].frg == n - 1 - i
  }

  lemma {:induction false} BeginsCount(q: seq<Seg>, n: nat)
    requires Begins(q, n)
    ensures MergeCount(q) == n && PeekLen(q) == |Merge(q[..n])|
    decreases n
  {
    if n == 1 {
      assert q[..1] == [q[0]] && Merge([q[0]]) == q[0].data + Merge([]);
    } else {
      BeginsCount(q[1..], n - 1);
      assert q[..n][1..] == q[1..][..n - 1];
    }
  }

  /** The size that ikcp_peeksize reports is the length of the whole message. */
  lemma BeginsPeek(q: seq<Seg>, n: nat)
    requires Begins(q, n)
    ensures PeekSize(q) == |Merge(q[..n])|
  {
    BeginsCount(q, n);
    if n == 1 {
      assert q[..1] == [q[0]] && Merge([q[0]]) == q[0].data + Merge([]);
    }
  }

  /** The assertion of ikcp_recv holds for every queue, whatever a peer sent:
      what is merged is as long as ikcp_peeksize said. */
  lemma {:induction false} PeekIsMerged(q: seq<Seg>)
    ensures PeekLen(q) == |Merge(q[..MergeCount(q)])|
    ensures PeekSize(q) >= 0 ==> PeekSize(q) == |Merge(q[..MergeCount(q)])|
    decreases |q|
  {
    if q != [] {
      var n := MergeCount(q);
      assert q[..n] == [q[0]] + q[1..][..n - 1];
      assert q[..n][1..] == q[1..][..n - 1];
      PeekIsMerged(q[1..]);
      assert q[1..][..0] == [];
    }
  }

  /** A queue that has only part of its first message is not read. */
  lemma NotYet(q: seq<Seg>, n: nat)
    requires |q| < n && forall i :: 0 <= i < |q| ==> q[i].frg == n - 1 - i
    ensures PeekSize(q) == -1
  {
  }

  lemma {:induction false} MergePlains(q: seq<Seg>)
    ensures Merge(Plains(q)) == Merge(q)
    decreases |q|
  {
    if q != [] {
      MergePlains(q[1..]);
      assert Plains(q)[1..] == Plains(q[1..]);
    }
  }

  // ----- histories -----

  lemma HistoryLast(mss: int, messages: seq<seq<Byte>>, message: seq<Byte>)
    requires mss > 0
    ensures History(mss, messages + [message]) == History(mss, messages) + Pieces(mss, message)
  {
    assert (messages + [message])[..|messages|] == messages;
  }

  /** The history of the first n messages is the front of the history. */
  lemma {:induction false} HistoryPrefix(mss: int, messages: seq<seq<Byte>>, n: nat)
    requires mss > 0 && n <= |messages|
    ensures History(mss, messages[..n]) <= History(mss, messages)
    decreases |messages|
  {
    if n < |messages| {
      var l := |messages| - 1;
      HistoryPrefix(mss, messages[..l], n);
      assert messages[..l][..n] == messages[..n];
    } else {
      assert messages[..n] == messages;
    }
  }

  /** Behind the first n messages comes the next one, whole. */
  lemma HistoryNext(mss: int, messages: seq<seq<Byte>>, n: nat)
    requires mss > 0 && n < |messages|
    ensures var h, d, p := History(mss, messages), |History(mss, messages[..n])|, Pieces(mss, messages[n]);
      d + |p| <= |h| && h[d..d + |p|] == p && |History(mss, messages[..n + 1])| == d + |p|
  {
    hide Fragments, FragmentCount;
    var front, p := messages[..n], Pieces(mss, messages[n]);
    assert messages[..n + 1] == front + [messages[n]];
    HistoryLast(mss, front, messages[n]);
    HistoryPrefix(mss, messages, n + 1);
    var h := History(mss, messages);
    var g := History(mss, front) + p;
    assert g <= h;
    assert h[|History(mss, front)|..|g|] == g[|History(mss, front)|..] == p;
  }

  /** Nothing lies behind the last message. */
  lemma HistoryAll(mss: int, messages: seq<seq<Byte>>, n: nat)
    requires mss > 0 && n <= |messages| && |History(mss, messages[..n])| < |History(mss, messages)|
    ensures n < |messages|
  {
    assert messages[..|messages|] == messages;
  }

  lemma {:induction false} HistoryPlain(mss: int, messages: seq<seq<Byte>>)
    requires mss > 0 && forall i :: 0 <= i < |messages| ==> Short(mss, messages[i])
    ensures forall x :: x in History(mss, messages) ==> x == Plain(x) && 0 <= x.frg < WND_RCV
  {
    hide Fragments, FragmentCount;
    if messages != [] {
      var l := |messages| - 1;
      HistoryPlain(mss, messages[..l]);
      var p := Pieces(mss, messages[l]);
      PiecesMerge(mss, messages[l]);
      assert |p| == FragmentCount(mss, |messages[l]|) < WND_RCV by {
        assert Short(mss, messages[l]);
      }
    }
  }
}
