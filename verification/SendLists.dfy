/** The linked lists of blocked senders as values: head[d] starts the list of d and next[s] continues it. */
module SendLists {
  import opened ProcTable
  import opened IpcSpec
  import opened IpcInvariant

  const NIL := -1

  datatype Links = Links(head: seq<int>, next: seq<int>)

  function PidAt(q: seq<int>, i: nat): int {
    if i < |q| then q[i] else NIL
  }

  ghost predicate LinksShape(l: Links) {
    |l.head| == |l.next| == NR_SLOTS
  }

  /** The list of d runs through q, in this order, and ends there. */
  ghost predicate ListIs(l: Links, d: int, q: seq<int>)
    requires LinksShape(l) && IsPid(d)
  {
    && l.head[d] == PidAt(q, 0)
    && forall i :: 0 <= i < |q| ==> IsPid(q[i]) && l.next[q[i]] == PidAt(q, i + 1)
  }

  ghost predicate Lists(l: Links, queues: seq<seq<int>>) {
    && LinksShape(l) && |queues| == NR_SLOTS
    && forall d :: IsPid(d) ==> ListIs(l, d, queues[d])
  }

  ghost predicate Disjoint(queues: seq<seq<int>>) {
    && (forall d :: 0 <= d < |queues| ==> NoDup(queues[d]))
    && forall d, e, x :: 0 <= d < |queues| && 0 <= e < |queues| && x in queues[d] && x in queues[e] ==> d == e
  }

  lemma InvDisjoint(st: State)
    requires Inv(st)
    ensures Disjoint(st.queues)
  {
    forall d | 0 <= d < |st.queues|
      ensures NoDup(st.queues[d])
    {
      assert IsPid(d) && QueueExact(st, d);
    }
    forall d, e, x | 0 <= d < |st.queues| && 0 <= e < |st.queues| && x in st.queues[d] && x in st.queues[e]
      ensures d == e
    {
      assert IsPid(d) && IsPid(e) && QueueExact(st, d) && QueueExact(st, e);
      assert Sends(st, x, d) && Sends(st, x, e);
    }
  }

  ghost predicate AllPids(q: seq<int>) {
    forall i :: 0 <= i < |q| ==> IsPid(q[i])
  }

  /** A list is not touched by changes to the links of slots that are not its members. */
  lemma ListUntouched(l: Links, l': Links, d: int, q: seq<int>)
    requires LinksShape(l) && LinksShape(l') && IsPid(d) && ListIs(l, d, q)
    requires l'.head[d] == l.head[d]
    requires forall i :: IsPid(i) && i in q ==> l'.next[i] == l.next[i]
    ensures ListIs(l', d, q)
  {
    forall i | 0 <= i < |q|
      ensures IsPid(q[i]) && l'.next[q[i]] == PidAt(q, i + 1)
    {
      assert q[i] in q;
    }
  }

  /** The links after hanging s behind the last member of q, the list of d. */
  function Hung(l: Links, d: int, q: seq<int>, s: int): Links
    requires |l.head| == |l.next| == NR_SLOTS && IsPid(d) && IsPid(s) && AllPids(q)
  {
    if q == [] then Links(l.head[d := s], l.next[s := NIL])
    else l.(next := l.next[q[|q|-1] := s][s := NIL])
  }

  lemma HungList(l: Links, d: int, q: seq<int>, s: int)
    requires LinksShape(l) && IsPid(d) && IsPid(s) && ListIs(l, d, q) && NoDup(q) && s !in q
    ensures ListIs(Hung(l, d, q, s), d, q + [s])
  {
  }

  lemma HungLists(l: Links, queues: seq<seq<int>>, d: int, s: int)
    requires Lists(l, queues) && Disjoint(queues) && IsPid(d) && IsPid(s)
    requires forall e :: IsPid(e) ==> s !in queues[e]
    ensures AllPids(queues[d])
    ensures Lists(Hung(l, d, queues[d], s), queues[d := queues[d] + [s]])
  {
    var q := queues[d];
    assert ListIs(l, d, q);
    HungList(l, d, q, s);
    forall e | IsPid(e) && e != d
      ensures ListIs(Hung(l, d, q, s), e, queues[e])
    {
      assert ListIs(l, e, queues[e]) && s !in queues[e];
      assert q != [] ==> q[|q|-1] !in queues[e];
      ListUntouched(l, Hung(l, d, q, s), e, queues[e]);
    }
  }

  /** The links after taking out the k-th member of q, the list of d. */
  function Spliced(l: Links, d: int, q: seq<int>, k: nat): Links
    requires |l.head| == |l.next| == NR_SLOTS && IsPid(d) && k < |q| && AllPids(q)
  {
    var after := l.next[q[k]];
    if k == 0 then Links(l.head[d := after], l.next[q[k] := NIL])
    else l.(next := l.next[q[k - 1] := after][q[k] := NIL])
  }

  lemma SplicedList(l: Links, d: int, q: seq<int>, k: nat)
    requires LinksShape(l) && IsPid(d) && ListIs(l, d, q) && NoDup(q) && k < |q|
    ensures ListIs(Spliced(l, d, q, k), d, Without(q, q[k]))
  {
    WithoutSplices(q, k);
    var l', r := Spliced(l, d, q, k), q[..k] + q[k+1..];
    forall i | 0 <= i < |r|
      ensures IsPid(r[i]) && l'.next[r[i]] == PidAt(r, i + 1)
    {
      var j := if i < k then i else i + 1;
      assert r[i] == q[j] && j != k;
      assert k > 0 && j == k - 1 ==> PidAt(r, i + 1) == PidAt(q, k + 1);
    }
  }

  lemma SplicedLists(l: Links, queues: seq<seq<int>>, d: int, k: nat)
    requires Lists(l, queues) && Disjoint(queues) && IsPid(d) && k < |queues[d]|
    ensures AllPids(queues[d])
    ensures Lists(Spliced(l, d, queues[d], k), queues[d := Without(queues[d], queues[d][k])])
  {
    var q := queues[d];
    assert ListIs(l, d, q);
    SplicedList(l, d, q, k);
    forall e | IsPid(e) && e != d
      ensures ListIs(Spliced(l, d, q, k), e, queues[e])
    {
      assert ListIs(l, e, queues[e]);
      assert q[k] !in queues[e] && (k > 0 ==> q[k - 1] !in queues[e]);
      ListUntouched(l, Spliced(l, d, q, k), e, queues[e]);
    }
  }
}
