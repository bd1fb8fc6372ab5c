/** What one Raft member keeps, whatever decoded messages reach it, starting from an empty log. */
module RaftInvariant {
  import opened Wrappers
  import opened Decimal
  import opened CommitRule
  import opened Raft

  ghost predicate TermsSorted(log: seq<Entry>) {
    forall i, j :: 0 <= i < j < |log| ==> log[i].term <= log[j].term
  }

  ghost predicate TermsBounded(log: seq<Entry>, term: nat) {
    forall i :: 0 <= i < |log| ==> log[i].term <= term
  }

  ghost predicate NodeInv(n: Node) {
    && Shaped(n)
    && n.log[0] == SENTINEL
    && TermsSorted(n.log) && TermsBounded(n.log, n.currentTerm)
    && n.currentTerm < U64
    && (n.role.Candidate? ==> n.votedFor == Some(n.id) && n.currentTerm > 0)
    && (n.role.Leader? && n.peers != [] ==> n.votedFor == Some(n.id) && n.currentTerm > 0)
    && (forall i :: 0 <= i < |n.nextIndex| ==> n.nextIndex[i] >= 1)
  }

  /** The message fields are 64-bit unsigned integers. */
  predicate Typed(input: Input) {
    input.Receive? ==> input.msg.term < U64 && (input.msg.AppendReply? ==> input.msg.matchIdx < U64)
  }

  /** An election started at the largest term. */
  predicate TermWraps(n: Node, input: Input) {
    input.Timeout? && !n.role.Leader? && n.currentTerm == U64 - 1
  }

  /** A reply claiming the largest 64-bit index. */
  predicate ClaimsMaxIndex(input: Input) {
    input.Receive? && input.msg.AppendReply? && input.msg.success && input.msg.matchIdx == U64 - 1
  }

  lemma MergeTerms(log: seq<Entry>, idx: nat, term: nat, cmds: seq<string>)
    requires 0 < idx <= |log| && TermsSorted(log) && TermsBounded(log, term)
    ensures var r := Merge(log, idx, term, cmds);
            |r| > 0 && r[0] == log[0] && TermsSorted(r) && TermsBounded(r, term)
  {
    var cut := MergeShape(log, idx, term, cmds);
  }

  lemma AcceptKeeps(n: Node, m: Msg)
    requires NodeInv(n) && m.AppendEntries? && m.term == n.currentTerm && m.prevIdx < |n.log|
    ensures var n' := AcceptEntries(n, m);
            NodeInv(n') && n'.currentTerm == n.currentTerm && n'.lastApplied == n.lastApplied
  {
    MergeTerms(n.log, m.prevIdx + 1, m.term, m.cmds);
  }

  lemma AppendEntriesKeeps(n: Node, from: nat, m: Msg)
    requires NodeInv(n) && m.AppendEntries? && m.term < U64
    ensures var n' := OnAppendEntries(n, from, m).node;
            NodeInv(n') && n'.currentTerm >= n.currentTerm && n'.lastApplied == n.lastApplied
  {
    if m.term >= n.currentTerm && Consistent(n.log, m.prevIdx, m.prevTerm) {
      AcceptKeeps(if m.term > n.currentTerm || n.role.Candidate? then BecomeFollower(n, m.term) else n, m);
    }
  }

  lemma AdvanceKeeps(n: Node)
    requires NodeInv(n) && n.role.Leader? && AdvanceCommit(n).Some?
    ensures var n' := AdvanceCommit(n).value; NodeInv(n') && n' == n.(commitIndex := n'.commitIndex)
  {
  }

  lemma AppendReplyKeeps(n: Node, from: nat, m: Msg)
    requires NodeInv(n) && m.AppendReply? && m.term < U64 && m.matchIdx < U64
    requires !(m.success && m.matchIdx == U64 - 1)
    requires OnAppendReply(n, from, m).Some?
    ensures var n' := OnAppendReply(n, from, m).value.node;
            NodeInv(n') && n'.currentTerm >= n.currentTerm && n'.lastApplied == n.lastApplied
  {
    var pi := PeerIndex(n.peers, from);
    if n.role.Leader? && m.term <= n.currentTerm && pi < |n.peers| && m.success {
      AdvanceKeeps(n.(nextIndex := n.nextIndex[pi := m.matchIdx + 1], matchIndex := n.matchIndex[pi := m.matchIdx]));
    }
  }

  lemma RequestVoteKeeps(n: Node, from: nat, m: Msg)
    requires NodeInv(n) && m.RequestVote? && m.term < U64
    ensures var n' := OnRequestVote(n, from, m).node;
            NodeInv(n') && n'.currentTerm >= n.currentTerm && n'.lastApplied == n.lastApplied
  {
  }

  lemma VoteReplyKeeps(n: Node, m: Msg)
    requires NodeInv(n) && m.VoteReply? && m.term < U64
    ensures var n' := OnVoteReply(n, m).node;
            NodeInv(n') && n'.currentTerm >= n.currentTerm && n'.lastApplied == n.lastApplied
  {
  }

  lemma TimeoutKeeps(n: Node)
    requires NodeInv(n) && !n.role.Leader? && n.currentTerm < U64 - 1
    ensures NodeInv(BecomeCandidate(n)) && BecomeCandidate(n).currentTerm == n.currentTerm + 1
  {
  }

  lemma ProposeKeeps(n: Node, cmd: string)
    requires NodeInv(n)
    ensures NodeInv(OnPropose(n, cmd).node)
  {
  }

  /** Every locked section keeps the invariant, never lowers the term or the applied index, and never changes
      who the node is. */
  lemma StepKeepsInvariant(n: Node, input: Input)
    requires NodeInv(n) && Typed(input) && NodeStep(n, input).Some?
    requires !TermWraps(n, input) && !ClaimsMaxIndex(input)
    ensures var n' := NodeStep(n, input).value.node;
            && NodeInv(n')
            && n'.currentTerm >= n.currentTerm && n'.lastApplied >= n.lastApplied
            && n'.id == n.id && n'.peers == n.peers
  {
    match input
    case Timeout => if !n.role.Leader? { TimeoutKeeps(n); }
    case Broadcast =>
    case Propose(cmd) => ProposeKeeps(n, cmd);
    case SendProposed =>
    case TakeApply =>
    case Receive(from, m) =>
      match m {
        case AppendEntries(_, _, _, _, _) => AppendEntriesKeeps(n, from, m);
        case AppendReply(_, _, _) => AppendReplyKeeps(n, from, m);
        case RequestVote(_, _, _) => RequestVoteKeeps(n, from, m);
        case VoteReply(_, _) => VoteReplyKeeps(n, m);
      }
  }

  /** The index vectors keep their size when a leader steps down. */
  lemma StaysSized(n: Node, input: Input)
    requires Shaped(n) && NodeStep(n, input).Some?
    ensures Sized(n) || NodeStep(n, input).value.node.role.Leader? ==> Sized(NodeStep(n, input).value.node)
  {
  }

  /** The term goes down in exactly one case: an election started at the largest 64-bit term. */
  lemma TermNeverDecreases(n: Node, input: Input)
    requires NodeInv(n) && Typed(input) && NodeStep(n, input).Some?
    ensures NodeStep(n, input).value.node.currentTerm >= n.currentTerm <==> !TermWraps(n, input)
  {
    if TermWraps(n, input) {
      assert (n.currentTerm + 1) % U64 == 0;
    } else if input.Receive? && input.msg.AppendEntries? {
      AppendEntriesKeeps(n, input.from, input.msg);
    }
  }

  // ---- whole runs of one node ----

  function RunNode(n: Node, inputs: seq<Input>): Option<Node>
    requires Shaped(n)
  {
    if inputs == [] then Some(n)
    else
      var r := RunNode(n, inputs[..|inputs| - 1]);
      if r.None? || !Shaped(r.value) then None
      else
        var e := NodeStep(r.value, inputs[|inputs| - 1]);
        if e.None? then None else Some(e.value.node)
  }

  ghost predicate Tame(n: Node, inputs: seq<Input>)
    requires Shaped(n)
  {
    forall k :: 0 <= k < |inputs| ==>
      Typed(inputs[k]) && !ClaimsMaxIndex(inputs[k])
      && (RunNode(n, inputs[..k]).Some? ==> !TermWraps(RunNode(n, inputs[..k]).value, inputs[k]))
  }

  /** From construction on an empty log, every run of arbitrary messages keeps the invariant, and no point of the
      run has a larger term or applied index than its end. */
  lemma {:induction false} RunKeepsInvariant(id: nat, peers: seq<nat>, inputs: seq<Input>, k: nat)
    requires Tame(Fresh(id, peers), inputs) && k <= |inputs|
    requires RunNode(Fresh(id, peers), inputs).Some?
    ensures NodeInv(RunNode(Fresh(id, peers), inputs).value)
    ensures var before, after := RunNode(Fresh(id, peers), inputs[..k]), RunNode(Fresh(id, peers), inputs).value;
            && before.Some? && before.value.currentTerm <= after.currentTerm
            && before.value.lastApplied <= after.lastApplied
    decreases |inputs|
  {
    var n := Fresh(id, peers);
    if inputs == [] {
      assert inputs[..k] == inputs;
    } else {
      var init, last := inputs[..|inputs| - 1], inputs[|inputs| - 1];
      TameInit(n, inputs);
      RunKeepsInvariant(id, peers, init, if k < |inputs| then k else 0);
      StepKeepsInvariant(RunNode(n, init).value, last);
      assert if k < |inputs| then init[..k] == inputs[..k] else inputs[..k] == inputs;
    }
  }

  lemma TameInit(n: Node, inputs: seq<Input>)
    requires Shaped(n) && Tame(n, inputs) && inputs != []
    ensures Tame(n, inputs[..|inputs| - 1])
  {
    var init := inputs[..|inputs| - 1];
    forall k | 0 <= k < |init|
      ensures init[..k] == inputs[..k] && init[k] == inputs[k]
    {}
  }

  // ---- the commit index of a leader ----

  /** The largest index that a quorum of members, the leader included, has reached. */
  ghost predicate LargestReached(n: Node, c: nat)
    requires |n.log| > 0
  {
    && CountAtLeast(n.matchIndex + [LastIndex(n)], c) >= Quorum(|n.peers|)
    && forall k :: k > c ==> CountAtLeast(n.matchIndex + [LastIndex(n)], k) < Quorum(|n.peers|)
  }

  /** advanceCommitIndex moves the commit index to the largest index a quorum has reached, only upwards and only
      when the entry there carries the current term; nothing else changes. */
  lemma AdvanceCommitRule(n: Node, c: nat)
    requires Shaped(n) && n.role.Leader? && LargestReached(n, c)
    ensures AdvanceCommit(n) == if c <= n.commitIndex then Some(n)
                                else if c > LastIndex(n) then None
                                else if n.log[c].term == n.currentTerm then Some(n.(commitIndex := c))
                                else Some(n)
  {
    var p := CommitPoint(n.matchIndex, LastIndex(n));
    CommitPointCounts(n.matchIndex, LastIndex(n), c);
    CommitPointCounts(n.matchIndex, LastIndex(n), p);
  }

  /** There always is such an index. */
  lemma LargestReachedExists(n: Node) returns (c: nat)
    requires Shaped(n) && n.role.Leader?
    ensures LargestReached(n, c)
  {
    c := CommitPoint(n.matchIndex, LastIndex(n));
    forall k: nat
      ensures CountAtLeast(n.matchIndex + [LastIndex(n)], k) >= Quorum(|n.peers|) <==> c >= k
    {
      CommitPointCounts(n.matchIndex, LastIndex(n), k);
    }
  }

  /** Handling a reply has undefined behaviour exactly when it makes a quorum of members claim an index beyond both
      the leader's log and its commit index. The commit index can itself lie beyond the log, after a truncation. */
  lemma AppendReplyDefined(n: Node, from: nat, m: Msg)
    requires NodeInv(n) && m.AppendReply?
    ensures OnAppendReply(n, from, m).None? <==>
              var pi := PeerIndex(n.peers, from);
              var beyond := if n.commitIndex < |n.log| then |n.log| else n.commitIndex + 1;
              && n.role.Leader? && m.term <= n.currentTerm && pi < |n.peers| && m.success
              && CountAtLeast(n.matchIndex[pi := m.matchIdx] + [LastIndex(n)], beyond) >= Quorum(|n.peers|)
  {
    if n.role.Leader? {
      var pi := PeerIndex(n.peers, from);
      if pi < |n.peers| {
        CommitPointCounts(n.matchIndex[pi := m.matchIdx], LastIndex(n),
                          if n.commitIndex < |n.log| then |n.log| else n.commitIndex + 1);
      }
    }
  }

  // ---- the commit index of a follower ----

  /** The last index after the entries of a message were accepted. */
  ghost function LastAfter(log: seq<Entry>, m: Msg): nat
    requires m.AppendEntries? && |log| > 0
  {
    if Clashes(log, m.prevIdx + 1, m.term, |m.cmds|) || |log| <= m.prevIdx + |m.cmds| then m.prevIdx + |m.cmds|
    else |log| - 1
  }

  lemma MergeLast(log: seq<Entry>, m: Msg)
    requires m.AppendEntries? && m.prevIdx < |log|
    ensures |Merge(log, m.prevIdx + 1, m.term, m.cmds)| == LastAfter(log, m) + 1
  {
    var cut := MergeShape(log, m.prevIdx + 1, m.term, m.cmds);
  }

  /** The commit index goes down in exactly two cases: an accepted message announces a larger one but leaves the log
      ending before the present one; or a member without peers, whose log ends before it already, proposes. */
  lemma CommitFallsExactly(n: Node, input: Input)
    requires Shaped(n) && NodeStep(n, input).Some?
    ensures NodeStep(n, input).value.node.commitIndex < n.commitIndex <==>
              || (&& input.Receive? && input.msg.AppendEntries? && input.msg.term >= n.currentTerm
                  && Consistent(n.log, input.msg.prevIdx, input.msg.prevTerm)
                  && LastAfter(n.log, input.msg) < n.commitIndex < input.msg.leaderCommit)
              || (input.Propose? && n.role.Leader? && n.peers == [] && |n.log| < n.commitIndex)
  {
    if input.Receive? && input.msg.AppendEntries? {
      AcceptedCommit(n, input.from, input.msg);
    }
  }

  lemma AcceptedCommit(n: Node, from: nat, m: Msg)
    requires Shaped(n) && m.AppendEntries?
    ensures OnAppendEntries(n, from, m).node.commitIndex ==
              if m.term < n.currentTerm || !Consistent(n.log, m.prevIdx, m.prevTerm) || m.leaderCommit <= n.commitIndex
              then n.commitIndex
              else Min(m.leaderCommit, LastAfter(n.log, m))
  {
    if Consistent(n.log, m.prevIdx, m.prevTerm) {
      MergeLast(n.log, m);
    }
  }

  /** Two messages bring it about: two of three entries committed, then one entry of a later term in their place. */
  lemma CommitCanFall(peers: seq<nat>, from: nat)
    requires peers != []
    ensures var n := OnAppendEntries(Fresh(1, peers), from, AppendEntries(1, 0, 0, 2, ["a", "b", "c"])).node;
            n.commitIndex == 2 && Shaped(n)
            && OnAppendEntries(n, from, AppendEntries(2, 0, 0, 3, ["d"])).node.commitIndex == 1
  {
    var n := OnAppendEntries(Fresh(1, peers), from, AppendEntries(1, 0, 0, 2, ["a", "b", "c"])).node;
    assert n.log == [SENTINEL, Entry(1, "a"), Entry(1, "b"), Entry(1, "c")];
    assert OnAppendEntries(n, from, AppendEntries(2, 0, 0, 3, ["d"])).node.log == [SENTINEL, Entry(2, "d")];
  }

  // ---- applying ----

  /** The indices of the entries that takePendingApply hands out. */
  function PendingIndices(n: Node): seq<nat> {
    seq(|PendingApply(n)|, i requires 0 <= i < |PendingApply(n)| => n.lastApplied + 1 + i)
  }

  /** All indices handed out in the course of a run. */
  function HandedOut(n: Node, inputs: seq<Input>): seq<nat>
    requires Shaped(n) && RunNode(n, inputs).Some?
  {
    if inputs == [] then []
    else
      var init := inputs[..|inputs| - 1];
      HandedOut(n, init)
      + if inputs[|inputs| - 1].TakeApply? then PendingIndices(RunNode(n, init).value) else []
  }

  lemma PendingEntries(n: Node, i: nat)
    requires i < |PendingApply(n)|
    ensures var k := PendingIndices(n)[i];
            n.lastApplied < k <= n.commitIndex && k < |n.log| && PendingApply(n)[i] == n.log[k]
  {
  }

  /** Everything committed and not yet applied is handed out, as far as the log goes, and nothing else. */
  lemma PendingComplete(n: Node)
    requires n.lastApplied < |n.log|
    ensures var last := if n.commitIndex < |n.log| then n.commitIndex else |n.log| - 1;
            && |PendingApply(n)| == (if n.lastApplied < last then last - n.lastApplied else 0)
            && forall k :: n.lastApplied < k <= last ==> PendingApply(n)[k - n.lastApplied - 1] == n.log[k]
  {
  }

  lemma PendingIndex(n: Node, k: nat)
    ensures k in PendingIndices(n) <==> n.lastApplied < k <= n.commitIndex && k < |n.log|
  {
    if n.lastApplied < k <= n.commitIndex && k < |n.log| {
      PendingComplete(n);
      assert PendingIndices(n)[k - n.lastApplied - 1] == k;
    }
    if k in PendingIndices(n) {
      var i :| 0 <= i < |PendingIndices(n)| && PendingIndices(n)[i] == k;
      PendingEntries(n, i);
    }
  }

  lemma AppliedGrows(n: Node, input: Input)
    requires Shaped(n) && NodeStep(n, input).Some?
    ensures var n' := NodeStep(n, input).value.node;
            n'.lastApplied >= n.lastApplied && (input.TakeApply? ==> n'.lastApplied >= n.commitIndex)
  {
  }

  /** The last input of a run: what was applied before it, and what it hands out. */
  lemma HandedLast(n: Node, inputs: seq<Input>) returns (before: Node)
    requires Shaped(n) && RunNode(n, inputs).Some? && inputs != []
    ensures var init, last := inputs[..|inputs| - 1], inputs[|inputs| - 1];
            && RunNode(n, init) == Some(before)
            && HandedOut(n, inputs) == HandedOut(n, init) + (if last.TakeApply? then PendingIndices(before) else [])
            && before.lastApplied <= RunNode(n, inputs).value.lastApplied
            && (last.TakeApply? ==> before.commitIndex <= RunNode(n, inputs).value.lastApplied)
  {
    before := RunNode(n, inputs[..|inputs| - 1]).value;
    AppliedGrows(before, inputs[|inputs| - 1]);
  }

  /** No index is handed out twice, and they come in ascending order, whatever messages arrive in between. */
  lemma {:induction false} AppliedOnce(n: Node, inputs: seq<Input>, i: nat, j: nat)
    requires Shaped(n) && RunNode(n, inputs).Some? && i < j < |HandedOut(n, inputs)|
    ensures HandedOut(n, inputs)[i] < HandedOut(n, inputs)[j]
    decreases |inputs|
  {
    var init := inputs[..|inputs| - 1];
    var before := HandedLast(n, inputs);
    var done := |HandedOut(n, init)|;
    if j < done {
      AppliedOnce(n, init, i, j);
    } else if i < done {
      PendingEntries(before, j - done);
      AppliedBelow(n, init, i);
    }
  }

  lemma {:induction false} AppliedBelow(n: Node, inputs: seq<Input>, i: nat)
    requires Shaped(n) && RunNode(n, inputs).Some? && i < |HandedOut(n, inputs)|
    ensures HandedOut(n, inputs)[i] <= RunNode(n, inputs).value.lastApplied
    decreases |inputs|
  {
    var init := inputs[..|inputs| - 1];
    var before := HandedLast(n, inputs);
    var done := |HandedOut(n, init)|;
    if i < done {
      AppliedBelow(n, init, i);
    } else {
      PendingEntries(before, i - done);
    }
  }

  /** At its j-th step the run takes the applied index past k, at a moment when the log has an entry there. */
  ghost predicate Passes(n: Node, inputs: seq<Input>, j: nat, k: nat)
    requires Shaped(n) && j < |inputs|
  {
    var before, after := RunNode(n, inputs[..j]), RunNode(n, inputs[..j + 1]);
    before.Some? && after.Some? && before.value.lastApplied < k <= after.value.lastApplied && k < |before.value.log|
  }

  ghost predicate Passed(n: Node, inputs: seq<Input>, k: nat)
    requires Shaped(n)
  {
    exists j :: 0 <= j < |inputs| && Passes(n, inputs, j, k)
  }

  /** Nothing is left out: over every run, the indices handed out are exactly those that the applied index passes
      while the log reaches them. */
  lemma {:induction false} HandedOutExactly(n: Node, inputs: seq<Input>, k: nat)
    requires Shaped(n) && RunNode(n, inputs).Some?
    ensures k in HandedOut(n, inputs) <==> Passed(n, inputs, k)
    decreases |inputs|
  {
    if inputs != [] {
      var before := HandedLast(n, inputs);
      HandedOutExactly(n, inputs[..|inputs| - 1], k);
      PassedLast(n, inputs, before, k);
      PendingIndex(before, k);
    }
  }

  /** The last step of a run passes k, or an earlier one did. */
  lemma PassedLast(n: Node, inputs: seq<Input>, before: Node, k: nat)
    requires Shaped(n) && RunNode(n, inputs).Some? && inputs != []
    requires RunNode(n, inputs[..|inputs| - 1]) == Some(before)
    ensures Passed(n, inputs, k) <==>
              || Passed(n, inputs[..|inputs| - 1], k)
              || (inputs[|inputs| - 1].TakeApply? && before.lastApplied < k <= before.commitIndex && k < |before.log|)
  {
    PassesInit(n, inputs, k);
    PassesLast(n, inputs, before, k);
    var last := |inputs| - 1;
    if Passed(n, inputs, k) {
      var j :| 0 <= j < |inputs| && Passes(n, inputs, j, k);
      assert j < last ==> Passes(n, inputs[..last], j, k);
    }
    if Passed(n, inputs[..last], k) {
      var j :| 0 <= j < last && Passes(n, inputs[..last], j, k);
      assert Passes(n, inputs, j, k);
    }
  }

  lemma PassesInit(n: Node, inputs: seq<Input>, k: nat)
    requires Shaped(n) && inputs != []
    ensures forall j :: 0 <= j < |inputs| - 1 ==>
              (Passes(n, inputs[..|inputs| - 1], j, k) <==> Passes(n, inputs, j, k))
  {
    var init := inputs[..|inputs| - 1];
    forall j | 0 <= j < |init|
      ensures Passes(n, init, j, k) <==> Passes(n, inputs, j, k)
    {
      assert init[..j] == inputs[..j] && init[..j + 1] == inputs[..j + 1];
    }
  }

  /** Only takePendingApply moves the applied index. */
  lemma PassesLast(n: Node, inputs: seq<Input>, before: Node, k: nat)
    requires Shaped(n) && RunNode(n, inputs).Some? && inputs != []
    requires RunNode(n, inputs[..|inputs| - 1]) == Some(before)
    ensures Passes(n, inputs, |inputs| - 1, k) <==>
              inputs[|inputs| - 1].TakeApply? && before.lastApplied < k <= before.commitIndex && k < |before.log|
  {
    assert inputs[..|inputs|] == inputs;
    OnlyTakeApply(before, inputs[|inputs| - 1]);
  }

  lemma OnlyTakeApply(n: Node, input: Input)
    requires Shaped(n) && NodeStep(n, input).Some?
    ensures NodeStep(n, input).value.node.lastApplied ==
              if input.TakeApply? && n.lastApplied < n.commitIndex then n.commitIndex else n.lastApplied
  {
  }

  // ---- a member on its own ----

  /** It leads, and everything it has been given is committed and still to be applied. */
  ghost predicate Alone(n: Node, cmds: seq<string>) {
    && n.role.Leader? && n.peers == [] && Shaped(n) && n.lastApplied == 0
    && n.commitIndex == |cmds| && |n.log| == |cmds| + 1 && Commands(n.log)[1..] == cmds
  }

  lemma AloneStep(n: Node, cmds: seq<string>, cmd: string)
    requires Alone(n, cmds)
    ensures Alone(OnPropose(n, cmd).node, cmds + [cmd])
  {
    var log' := OnPropose(n, cmd).node.log;
    assert Commands(log') == Commands(n.log) + [cmd];
  }

  lemma {:induction false} AloneRun(id: nat, cmds: seq<string>)
    ensures var r := RunNode(Fresh(id, []), Proposals(cmds)); r.Some? && Alone(r.value, cmds)
    decreases |cmds|
  {
    if cmds == [] {
      assert Commands([SENTINEL])[1..] == [];
    } else {
      var init := cmds[..|cmds| - 1];
      AloneRun(id, init);
      assert Proposals(cmds)[..|cmds| - 1] == Proposals(init);
      AloneStep(RunNode(Fresh(id, []), Proposals(init)).value, init, cmds[|cmds| - 1]);
      assert cmds == init + [cmds[|cmds| - 1]];
    }
  }

  /** A member without peers leads from the start: every command it is given is committed at once, and all of them are
      there to be applied. */
  lemma AloneCommits(id: nat, cmds: seq<string>)
    ensures var r := RunNode(Fresh(id, []), Proposals(cmds));
            && r.Some? && r.value.role.Leader? && r.value.commitIndex == |cmds| && r.value.lastApplied == 0
            && Commands(PendingApply(r.value)) == cmds
  {
    AloneRun(id, cmds);
    var n := RunNode(Fresh(id, []), Proposals(cmds)).value;
    PendingComplete(n);
    forall i | 0 <= i < |cmds|
      ensures Commands(PendingApply(n))[i] == cmds[i]
    {
      assert PendingApply(n)[i] == n.log[i + 1];
      assert Commands(n.log)[1..][i] == n.log[i + 1].command;
    }
    assert Commands(PendingApply(n)) == cmds;
  }

  function Proposals(cmds: seq<string>): seq<Input> {
    seq(|cmds|, i requires 0 <= i < |cmds| => Propose(cmds[i]))
  }
}
