/** The commit rule of RaftNode::advanceCommitIndex: sort the reported indices, take the one at quorum position. */
module CommitRule {
  import opened Sequences

  function Insert(x: nat, s: seq<nat>): (r: seq<nat>)
    ensures |r| == |s| + 1
  {
    if s == [] || x >= s[0] then [x] + s else [s[0]] + Insert(x, s[1..])
  }

  /** std::sort with std::greater. */
  function SortDesc(s: seq<nat>): (r: seq<nat>)
    ensures |r| == |s|
  {
    if s == [] then [] else Insert(s[0], SortDesc(s[1..]))
  }

  /** peers / 2 + 1, for a group of peers plus self. */
  function Quorum(peers: nat): nat {
    peers / 2 + 1
  }

  /** sorted[quorum - 1] over the match indices and the leader's own last index. */
  function CommitPoint(matchIndex: seq<nat>, last: nat): nat {
    SortDesc(matchIndex + [last])[Quorum(|matchIndex|) - 1]
  }

  // ---- counting ----

  /** How many members have reached index n. */
  function CountAtLeast(s: seq<nat>, n: nat): nat {
    if s == [] then 0 else (if s[0] >= n then 1 else 0) + CountAtLeast(s[1..], n)
  }

  ghost predicate Descending(s: seq<nat>) {
    forall i, j :: 0 <= i < j < |s| ==> s[i] >= s[j]
  }

  lemma {:induction false} InsertSorted(x: nat, s: seq<nat>)
    requires Descending(s)
    ensures Descending(Insert(x, s))
    ensures forall y :: y in Insert(x, s) ==> y == x || y in s
  {
    if !(s == [] || x >= s[0]) {
      InsertSorted(x, s[1..]);
      var r := Insert(x, s[1..]);
      forall j | 0 <= j < |r|
        ensures s[0] >= r[j]
      {
        assert r[j] in r;
      }
    }
  }

  lemma {:induction false} InsertCount(x: nat, s: seq<nat>, n: nat)
    ensures CountAtLeast(Insert(x, s), n) == CountAtLeast([x] + s, n)
  {
    assert ([x] + s)[1..] == s;
    if !(s == [] || x >= s[0]) {
      InsertCount(x, s[1..], n);
      assert ([s[0]] + Insert(x, s[1..]))[1..] == Insert(x, s[1..]);
      assert ([x] + s[1..])[1..] == s[1..];
    }
  }

  lemma {:induction false} SortDescCorrect(s: seq<nat>, n: nat)
    ensures Descending(SortDesc(s))
    ensures CountAtLeast(SortDesc(s), n) == CountAtLeast(s, n)
  {
    if s == [] {
    } else {
      var t := SortDesc(s[1..]);
      SortDescCorrect(s[1..], n);
      InsertSorted(s[0], t);
      InsertCount(s[0], t, n);
      assert ([s[0]] + t)[1..] == t;
    }
  }

  lemma {:induction false} CountBelow(s: seq<nat>, n: nat)
    requires forall i :: 0 <= i < |s| ==> s[i] < n
    ensures CountAtLeast(s, n) == 0
  {
    if s == [] {
    } else {
      CountBelow(s[1..], n);
    }
  }

  /** In a descending sequence, position k reaches n exactly when more than k elements do. */
  lemma {:induction false} RankCounts(s: seq<nat>, k: nat, n: nat)
    requires Descending(s) && k < |s|
    ensures s[k] >= n <==> CountAtLeast(s, n) > k
  {
    if s[0] < n {
      CountBelow(s, n);
    } else if k > 0 {
      RankCounts(s[1..], k - 1, n);
    }
  }

  /** Commit by sorted position is commit by counting: the chosen index is reached by a quorum of the members,
      the leader included, and every larger index is not. */
  lemma CommitPointCounts(matchIndex: seq<nat>, last: nat, n: nat)
    ensures CommitPoint(matchIndex, last) >= n <==> CountAtLeast(matchIndex + [last], n) >= Quorum(|matchIndex|)
  {
    SortDescCorrect(matchIndex + [last], n);
    RankCounts(SortDesc(matchIndex + [last]), Quorum(|matchIndex|) - 1, n);
  }

  /** The index read at log[newCommit] is in range exactly when fewer than a quorum of members claim to have
      gone past the leader's own last index. */
  lemma CommitPointInRange(matchIndex: seq<nat>, last: nat)
    ensures CommitPoint(matchIndex, last) <= last <==>
            CountAtLeast(matchIndex + [last], last + 1) < Quorum(|matchIndex|)
  {
    CommitPointCounts(matchIndex, last, last + 1);
  }

  lemma HonestReportsInRange(matchIndex: seq<nat>, last: nat)
    requires forall i :: 0 <= i < |matchIndex| ==> matchIndex[i] <= last
    ensures CommitPoint(matchIndex, last) <= last
  {
    CountBelow(matchIndex + [last], last + 1);
    CommitPointInRange(matchIndex, last);
  }

  // ---- quorums ----

  /** Any two quorums of a group share a member exactly when the group has an odd number of members. */
  lemma QuorumsIntersect(members: set<nat>)
    requires members != {}
    ensures (forall a, b :: a <= members && b <= members && |a| >= Quorum(|members| - 1) && |b| >= Quorum(|members| - 1)
               ==> a * b != {})
            <==> |members| % 2 == 1
  {
    var q := Quorum(|members| - 1);
    if |members| % 2 == 1 {
      forall a, b | a <= members && b <= members && |a| >= q && |b| >= q
        ensures a * b != {}
      {
        if a * b == {} {
          assert |a + b| == |a| + |b|;
          SubsetSize(a + b, members);
        }
      }
    } else {
      var a := TakeSome(members, q);
      var b := members - a;
      assert |b| == q;
      assert a * b == {};
    }
  }

  lemma {:induction false} TakeSome(s: set<nat>, k: nat) returns (a: set<nat>)
    requires k <= |s|
    ensures a <= s && |a| == k
  {
    if k == 0 {
      a := {};
    } else {
      var x :| x in s;
      a := TakeSome(s - {x}, k - 1);
      a := a + {x};
    }
  }
}
