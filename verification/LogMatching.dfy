/** Command-level log matching. A follower labels every entry it accepts with the term of the message, so labels
    may differ between members; what two equal labels at one index do promise is equal commands up to it. */
module LogMatching {
  import opened Decimal
  import opened Raft
  import opened RaftInvariant
  import opened RaftGroup
  import opened ElectionSafety

  /** The entry at index i carries a label whose term log agrees with this log up to i. */
  ghost predicate Traced(termLog: map<nat, seq<string>>, log: seq<Entry>, i: nat)
    requires i < |log|
  {
    var t := log[i].term;
    t > 0 && t in termLog && i < |termLog[t]| && Commands(log)[..i + 1] == termLog[t][..i + 1]
  }

  ghost predicate LogTraced(termLog: map<nat, seq<string>>, log: seq<Entry>) {
    forall i :: 1 <= i < |log| ==> Traced(termLog, log, i)
  }

  /** An AppendEntries message repeats a stretch of its term's log; its previous-entry label leads to a term log
      that agrees with it up to there. A leader whose nextIndex is beyond its log sends an empty message that
      nobody accepts. */
  ghost predicate AppendOk(termLog: map<nat, seq<string>>, m: Msg)
    requires m.AppendEntries?
  {
    && m.term > 0 && m.term in termLog
    && (|| (m.prevIdx > 0 && m.prevTerm == 0 && m.cmds == [])
        || (var l := termLog[m.term];
            && m.prevIdx + 1 + |m.cmds| <= |l|
            && m.cmds == l[m.prevIdx + 1..m.prevIdx + 1 + |m.cmds|]
            && (m.prevIdx > 0 ==> SharedPrefix(termLog, m.term, m.prevTerm, m.prevIdx))))
  }

  ghost predicate SharedPrefix(termLog: map<nat, seq<string>>, t: nat, u: nat, i: nat) {
    && t in termLog && u in termLog && i < |termLog[t]| && i < |termLog[u]|
    && termLog[t][..i + 1] == termLog[u][..i + 1]
  }

  ghost predicate LogInv(s: Group) {
    && BaseInv(s)
    && (forall id :: id in s.nodes ==> LogTraced(s.termLog, s.nodes[id].log))
    && (forall p :: p in s.net && p.msg.AppendEntries? ==>
          AppendOk(s.termLog, p.msg) && (p.msg.term, p.src) in s.elected)
    && (forall id :: id in s.nodes && s.nodes[id].role.Leader? ==> LeaderOk(s, id))
    && (forall t :: t in s.termLog ==> Led(s, t))
    && SentinelFirst(s.termLog)
  }

  /** Every term log starts with the sentinel's empty command. */
  ghost predicate SentinelFirst(termLog: map<nat, seq<string>>) {
    forall t :: t in termLog ==> termLog[t] != [] && termLog[t][0] == ""
  }

  ghost predicate LeaderOk(s: Group, id: nat)
    requires id in s.nodes
  {
    var n := s.nodes[id];
    && n.currentTerm > 0 && n.currentTerm in s.termLog && s.termLog[n.currentTerm] == Commands(n.log)
    && NextBounded(n)
  }

  ghost predicate NextBounded(n: Node) {
    forall i :: 0 <= i < |n.nextIndex| ==> n.nextIndex[i] <= U64
  }

  ghost predicate Led(s: Group, t: nat) {
    exists l :: (t, l) in s.elected
  }

  // ---- term logs only grow ----

  ghost predicate Grows(a: map<nat, seq<string>>, b: map<nat, seq<string>>) {
    forall t :: t in a ==> t in b && a[t] <= b[t]
  }

  lemma PrefixStays(a: seq<string>, b: seq<string>, i: nat)
    requires a <= b && i <= |a|
    ensures a[..i] == b[..i]
  {
  }

  lemma TracedGrows(a: map<nat, seq<string>>, b: map<nat, seq<string>>, log: seq<Entry>)
    requires Grows(a, b) && LogTraced(a, log)
    ensures LogTraced(b, log)
  {
    forall i | 1 <= i < |log|
      ensures Traced(b, log, i)
    {
      assert Traced(a, log, i);
      PrefixStays(a[log[i].term], b[log[i].term], i + 1);
    }
  }

  lemma AppendOkGrows(a: map<nat, seq<string>>, b: map<nat, seq<string>>, m: Msg)
    requires Grows(a, b) && m.AppendEntries? && AppendOk(a, m)
    ensures AppendOk(b, m)
  {
    if !(m.prevIdx > 0 && m.prevTerm == 0 && m.cmds == []) {
      var i, j := m.prevIdx + 1, m.prevIdx + 1 + |m.cmds|;
      PrefixStays(a[m.term], b[m.term], j);
      assert a[m.term][i..j] == a[m.term][..j][i..];
      assert b[m.term][i..j] == b[m.term][..j][i..];
      if m.prevIdx > 0 {
        PrefixStays(a[m.term], b[m.term], i);
        PrefixStays(a[m.prevTerm], b[m.prevTerm], i);
      }
    }
  }

  // ---- accepting entries ----

  /** A follower that passes the consistency check agrees with the leader's term log up to the previous entry. */
  lemma ConsistentAgrees(termLog: map<nat, seq<string>>, log: seq<Entry>, m: Msg)
    requires m.AppendEntries? && AppendOk(termLog, m) && LogTraced(termLog, log)
    requires |log| > 0 && log[0] == SENTINEL && termLog[m.term] != [] && termLog[m.term][0] == ""
    requires Consistent(log, m.prevIdx, m.prevTerm)
    ensures m.prevIdx + 1 + |m.cmds| <= |termLog[m.term]| && m.prevIdx < |log|
    ensures m.cmds == termLog[m.term][m.prevIdx + 1..m.prevIdx + 1 + |m.cmds|]
    ensures Commands(log)[..m.prevIdx + 1] == termLog[m.term][..m.prevIdx + 1]
  {
    if m.prevIdx > 0 {
      assert Traced(termLog, log, m.prevIdx);
    } else {
      assert Commands(log)[..1] == [""];
      assert termLog[m.term][..1] == [""];
    }
  }

  /** Merging a stretch of the term log into a log that agrees with it so far keeps every label traced. */
  lemma MergeTraced(termLog: map<nat, seq<string>>, log: seq<Entry>, idx: nat, term: nat, cmds: seq<string>)
    requires 0 < idx <= |log| && LogTraced(termLog, log)
    requires term > 0 && term in termLog && idx + |cmds| <= |termLog[term]|
    requires cmds == termLog[term][idx..idx + |cmds|]
    requires Commands(log)[..idx] == termLog[term][..idx]
    ensures LogTraced(termLog, Merge(log, idx, term, cmds))
  {
    var cut := MergeShape(log, idx, term, cmds);
    var r := Merge(log, idx, term, cmds);
    if cut < idx + |cmds| {
      AgreesUpToCut(termLog, log, idx, term, cut);
      forall i | 1 <= i < |r|
        ensures Traced(termLog, r, i)
      {
        if i < cut {
          assert Traced(termLog, log, i);
          assert Commands(r)[..i + 1] == Commands(log)[..i + 1];
        } else {
          RefilledAgrees(termLog[term], log, r, idx, term, cmds, cut, i);
        }
      }
    }
  }

  /** Entries that already carry the message's label already hold its commands. */
  lemma AgreesUpToCut(termLog: map<nat, seq<string>>, log: seq<Entry>, idx: nat, term: nat, cut: nat)
    requires 0 < idx <= cut <= |log| && LogTraced(termLog, log)
    requires term in termLog && cut <= |termLog[term]|
    requires Commands(log)[..idx] == termLog[term][..idx]
    requires forall i :: idx <= i < cut ==> log[i].term == term
    ensures Commands(log)[..cut] == termLog[term][..cut]
  {
    if cut > idx {
      assert Traced(termLog, log, cut - 1);
    }
  }

  lemma RefilledAgrees(
      l: seq<string>, log: seq<Entry>, r: seq<Entry>, idx: nat, term: nat, cmds: seq<string>, cut: nat, i: nat)
    requires idx <= cut <= i < |r| == idx + |cmds| <= |l| && cut <= |log|
    requires cmds == l[idx..idx + |cmds|] && Commands(log)[..cut] == l[..cut]
    requires r[..cut] == log[..cut]
    requires forall j :: cut <= j < |r| ==> r[j] == Entry(term, cmds[j - idx])
    ensures Commands(r)[..i + 1] == l[..i + 1] && r[i].term == term
  {
    forall j | 0 <= j <= i
      ensures Commands(r)[j] == l[j]
    {
      if j < cut {
        assert r[j] == r[..cut][j];
        assert log[j] == log[..cut][j];
        assert Commands(log)[..cut][j] == l[..cut][j];
      } else {
        assert cmds[j - idx] == l[j];
      }
    }
  }

  // ---- what a leader sends ----

  lemma LeaderSendsOk(termLog: map<nat, seq<string>>, n: Node, next: nat)
    requires n.currentTerm > 0 && n.currentTerm in termLog && termLog[n.currentTerm] == Commands(n.log)
    requires LogTraced(termLog, n.log) && |n.log| > 0 && 1 <= next <= U64
    ensures AppendOk(termLog, AppendMsg(n, next))
  {
    var m := AppendMsg(n, next);
    assert m.prevIdx == next - 1;
    if m.prevIdx < |n.log| {
      if next < |n.log| {
        assert Commands(n.log[next..]) == Commands(n.log)[next..];
        assert m.cmds == Commands(n.log)[m.prevIdx + 1..m.prevIdx + 1 + |m.cmds|];
      }
      if m.prevIdx > 0 {
        assert Traced(termLog, n.log, m.prevIdx);
      }
    }
  }

  // ---- one step of one member ----

  /** Only accepting entries and proposing change a log. */
  lemma LogUnchanged(n: Node, input: Input)
    requires NodeInv(n) && NodeStep(n, input).Some?
    requires !(input.Receive? && input.msg.AppendEntries?) && !(input.Propose? && n.role.Leader?)
    ensures NodeStep(n, input).value.node.log == n.log
  {
  }

  /** A leader's log only grows while it leads, unless someone else leads the same term. */
  lemma LeaderLogStep(n: Node, input: Input)
    requires NodeInv(n) && n.role.Leader? && NodeStep(n, input).Some? && NodeStep(n, input).value.node.role.Leader?
    requires !(input.Receive? && input.msg.AppendEntries? && input.msg.term == n.currentTerm)
    ensures n.log <= NodeStep(n, input).value.node.log
  {
    if input.Receive? && input.msg.AppendEntries? {
      assert input.msg.term < n.currentTerm;
    } else if !input.Propose? {
      LogUnchanged(n, input);
    }
  }

  lemma NextBoundedStep(n: Node, input: Input)
    requires NodeInv(n) && NodeStep(n, input).Some? && NodeStep(n, input).value.node.role.Leader?
    requires n.role.Leader? ==> NextBounded(n)
    requires |n.log| < U64
    ensures NextBounded(NodeStep(n, input).value.node)
  {
  }

  lemma AcceptTraced(termLog: map<nat, seq<string>>, n: Node, from: nat, m: Msg)
    requires NodeInv(n) && m.AppendEntries? && AppendOk(termLog, m)
    requires LogTraced(termLog, n.log) && SentinelFirst(termLog)
    ensures LogTraced(termLog, OnAppendEntries(n, from, m).node.log)
  {
    if m.term >= n.currentTerm && Consistent(n.log, m.prevIdx, m.prevTerm) {
      ConsistentAgrees(termLog, n.log, m);
      MergeTraced(termLog, n.log, m.prevIdx + 1, m.term, m.cmds);
    }
  }

  lemma ProposeTraced(termLog: map<nat, seq<string>>, log: seq<Entry>, e: Entry)
    requires LogTraced(termLog, log) && |log| > 0
    requires e.term > 0 && e.term in termLog && termLog[e.term] == Commands(log + [e])
    ensures LogTraced(termLog, log + [e])
  {
    var log' := log + [e];
    forall i | 1 <= i < |log'|
      ensures Traced(termLog, log', i)
    {
      if i < |log| {
        assert Traced(termLog, log, i);
        assert Commands(log')[..i + 1] == Commands(log)[..i + 1];
      }
    }
  }

  // ---- one step of the group ----

  /** The step's effect on the term logs: only the acting leader's grows. */
  lemma TermLogStep(s: Group, a: Action)
    requires LogInv(s) && Enabled(s, a) && OneLeaderPerTerm(Perform(s, a))
    ensures Grows(s.termLog, Perform(s, a).termLog)
  {
    var s' := Perform(s, a);
    var n, n' := s.nodes[a.id], s'.nodes[a.id];
    assert MemberOk(s, a.id);
    RoleSteps(n, a.input);
    if n'.role.Leader? {
      if n.role.Leader? {
        NoRivalMessage(s, a);
        LeaderLogStep(n, a.input);
        assert LeaderOk(s, a.id);
        assert Commands(n.log) <= Commands(n'.log);
      } else {
        FirstTimeLed(s, a);
      }
    }
  }

  /** A leader receives no AppendEntries of its own term. */
  lemma NoRivalMessage(s: Group, a: Action)
    requires LogInv(s) && Enabled(s, a) && OneLeaderPerTerm(Perform(s, a)) && s.nodes[a.id].role.Leader?
    ensures !(a.input.Receive? && a.input.msg.AppendEntries? && a.input.msg.term == s.nodes[a.id].currentTerm)
  {
    assert MemberOk(s, a.id);
    if a.input.Receive? {
      assert PacketOk(s, Packet(a.input.from, a.id, a.input.msg));
    }
  }

  /** A newly elected leader's term has no term log yet. */
  lemma FirstTimeLed(s: Group, a: Action)
    requires LogInv(s) && Enabled(s, a) && OneLeaderPerTerm(Perform(s, a))
    requires !s.nodes[a.id].role.Leader? && Perform(s, a).nodes[a.id].role.Leader?
    ensures Perform(s, a).nodes[a.id].currentTerm !in s.termLog
  {
    var t := Perform(s, a).nodes[a.id].currentTerm;
    assert MemberOk(s, a.id);
    RoleSteps(s.nodes[a.id], a.input);
    assert t in s.termLog ==> Led(s, t);
    assert (t, a.id) in s.elected ==> ElectedOk(s, (t, a.id));
  }

  /** Every log is still traced. */
  lemma LogsTraced(s: Group, a: Action, id: nat)
    requires LogInv(s) && Enabled(s, a)
    requires Grows(s.termLog, Perform(s, a).termLog) && SentinelFirst(Perform(s, a).termLog)
    requires id in s.nodes
    ensures LogTraced(Perform(s, a).termLog, Perform(s, a).nodes[id].log)
  {
    var tl := Perform(s, a).termLog;
    var n := s.nodes[id];
    assert MemberOk(s, id);
    TracedGrows(s.termLog, tl, n.log);
    if id != a.id {
    } else if a.input.Receive? && a.input.msg.AppendEntries? {
      var p := Packet(a.input.from, a.id, a.input.msg);
      assert p.msg.AppendEntries? && p in s.net;
      AppendOkGrows(s.termLog, tl, p.msg);
      AcceptTraced(tl, n, a.input.from, a.input.msg);
    } else if a.input.Propose? && n.role.Leader? {
      assert LeaderOk(s, id);
      ProposeTraced(tl, n.log, Entry(n.currentTerm, a.input.cmd));
    } else {
      LogUnchanged(n, a.input);
    }
  }

  lemma LeadersOk(s: Group, a: Action, id: nat)
    requires LogInv(s) && Enabled(s, a) && OneLeaderPerTerm(Perform(s, a)) && id in s.nodes
    requires Perform(s, a).nodes[id].role.Leader?
    ensures LeaderOk(Perform(s, a), id)
  {
    var s' := Perform(s, a);
    assert MemberOk(s, id) && MemberOk(s, a.id);
    BaseStep(s, a);
    assert MemberOk(s', id) && MemberOk(s', a.id);
    if id == a.id {
      RoleSteps(s.nodes[id], a.input);
      NextBoundedStep(s.nodes[id], a.input);
    } else {
      assert LeaderOk(s, id);
      assert (s'.nodes[id].currentTerm, id) in s'.elected;
    }
  }

  lemma PacketsOk(s: Group, a: Action, p: Packet)
    requires LogInv(s) && Enabled(s, a) && Guarded(s, a) && OneLeaderPerTerm(Perform(s, a))
    requires Grows(s.termLog, Perform(s, a).termLog) && LogTraced(Perform(s, a).termLog, Perform(s, a).nodes[a.id].log)
    requires p in Perform(s, a).net && p.msg.AppendEntries?
    ensures AppendOk(Perform(s, a).termLog, p.msg) && (p.msg.term, p.src) in Perform(s, a).elected
  {
    var s' := Perform(s, a);
    if p in s.net {
      AppendOkGrows(s.termLog, s'.termLog, p.msg);
    } else {
      var e := NodeStep(s.nodes[a.id], a.input).value;
      var k :| 0 <= k < |e.sent| && p == Packet(a.id, e.sent[k].dst, e.sent[k].msg);
      assert MemberOk(s, a.id);
      SentMessages(s.nodes[a.id], a.input, k);
      var i :| 0 <= i < |e.node.nextIndex| && p.msg == AppendMsg(e.node, e.node.nextIndex[i]);
      LeadersOk(s, a, a.id);
      BaseStep(s, a);
      assert MemberOk(s', a.id);
      LeaderSendsOk(s'.termLog, e.node, e.node.nextIndex[i]);
    }
  }

  lemma LogStep(s: Group, a: Action)
    requires LogInv(s) && Enabled(s, a) && Guarded(s, a) && OneLeaderPerTerm(Perform(s, a))
    ensures LogInv(Perform(s, a)) && Grows(s.termLog, Perform(s, a).termLog)
  {
    var s' := Perform(s, a);
    BaseStep(s, a);
    TermLogStep(s, a);
    SentinelStep(s, a);
    forall id | id in s'.nodes
      ensures LogTraced(s'.termLog, s'.nodes[id].log)
    {
      LogsTraced(s, a, id);
    }
    forall p | p in s'.net && p.msg.AppendEntries?
      ensures AppendOk(s'.termLog, p.msg) && (p.msg.term, p.src) in s'.elected
    {
      PacketsOk(s, a, p);
    }
    forall id | id in s'.nodes && s'.nodes[id].role.Leader?
      ensures LeaderOk(s', id)
    {
      LeadersOk(s, a, id);
    }
    forall t | t in s'.termLog
      ensures Led(s', t)
    {
      LedStep(s, a, t);
    }
  }

  lemma SentinelStep(s: Group, a: Action)
    requires LogInv(s) && Enabled(s, a)
    ensures SentinelFirst(Perform(s, a).termLog)
  {
    BaseStep(s, a);
    assert MemberOk(Perform(s, a), a.id);
  }

  lemma LedStep(s: Group, a: Action, t: nat)
    requires LogInv(s) && Enabled(s, a) && t in Perform(s, a).termLog
    ensures Led(Perform(s, a), t)
  {
    var s' := Perform(s, a);
    if t in s.termLog {
      assert Led(s, t);
      var l :| (t, l) in s.elected;
      assert (t, l) in s'.elected;
    } else {
      assert (t, a.id) in s'.elected;
    }
  }

  // ---- runs ----

  lemma {:induction false} LogRun(p: Policy, states: seq<Group>, acts: seq<Action>, i: nat)
    requires IsRun(states, acts) && i < |states| && Follows(p, states, acts) && p.guarded
    requires forall k :: 0 <= k < |states| ==> OneLeaderPerTerm(states[k])
    ensures LogInv(states[i])
    ensures i + 1 < |states| ==> Grows(states[i].termLog, states[i + 1].termLog)
  {
    if i == 0 {
      InitBase(states[0]);
    } else {
      LogRun(p, states, acts, i - 1);
      RunStep(p, states, acts, i - 1);
    }
    if i + 1 < |states| {
      RunStep(p, states, acts, i);
    }
  }

  lemma RunStep(p: Policy, states: seq<Group>, acts: seq<Action>, i: nat)
    requires IsRun(states, acts) && i < |acts| && Follows(p, states, acts) && p.guarded
    requires LogInv(states[i]) && OneLeaderPerTerm(states[i + 1])
    ensures LogInv(states[i + 1]) && Grows(states[i].termLog, states[i + 1].termLog)
  {
    var a := acts[i];
    LogStep(states[i], a);
  }

  lemma {:induction false} TermLogsGrow(p: Policy, states: seq<Group>, acts: seq<Action>, i: nat, j: nat)
    requires IsRun(states, acts) && i <= j < |states| && Follows(p, states, acts) && p.guarded
    requires forall k :: 0 <= k < |states| ==> OneLeaderPerTerm(states[k])
    ensures Grows(states[i].termLog, states[j].termLog)
    decreases j - i
  {
    if i < j {
      LogRun(p, states, acts, i);
      TermLogsGrow(p, states, acts, i + 1, j);
      GrowsTransitive(states[i].termLog, states[i + 1].termLog, states[j].termLog);
    }
  }

  lemma GrowsTransitive(a: map<nat, seq<string>>, b: map<nat, seq<string>>, c: map<nat, seq<string>>)
    requires Grows(a, b) && Grows(b, c)
    ensures Grows(a, c)
  {
  }

  /** Equal labels at one index mean equal commands at every index up to it. */
  ghost predicate LogsAgree(a: seq<Entry>, b: seq<Entry>) {
    forall k, h :: 0 <= h <= k < |a| && k < |b| && a[k].term == b[k].term ==> a[h].command == b[h].command
  }

  /** Log matching over a run: between any two members, at any two moments. */
  ghost predicate LogsMatch(states: seq<Group>) {
    forall i, j, a, b :: 0 <= i < |states| && 0 <= j < |states| && a in states[i].nodes && b in states[j].nodes ==>
      LogsAgree(states[i].nodes[a].log, states[j].nodes[b].log)
  }

  /** Log matching: in every run with at most one leader per term, in which the second section of propose is only
      run by leaders, an entry of one member and an entry of another, at one index and with one label, at whatever
      moments of the run, have the same commands at every index up to theirs. */
  lemma CommandLogMatching(p: Policy, states: seq<Group>, acts: seq<Action>)
    requires IsRun(states, acts) && Follows(p, states, acts) && p.guarded
    requires forall x :: 0 <= x < |states| ==> OneLeaderPerTerm(states[x])
    ensures LogsMatch(states)
  {
    forall i, j, a, b | 0 <= i < |states| && 0 <= j < |states| && a in states[i].nodes && b in states[j].nodes
      ensures LogsAgree(states[i].nodes[a].log, states[j].nodes[b].log)
    {
      var last := |states| - 1;
      LogRun(p, states, acts, i);
      LogRun(p, states, acts, j);
      TermLogsGrow(p, states, acts, i, last);
      TermLogsGrow(p, states, acts, j, last);
      assert MemberOk(states[i], a) && MemberOk(states[j], b);
      TracedAgree(states[i].termLog, states[j].termLog, states[last].termLog,
                  states[i].nodes[a].log, states[j].nodes[b].log);
    }
  }

  /** Two logs traced to term logs that grew into the same ones. */
  lemma TracedAgree(
      a: map<nat, seq<string>>, b: map<nat, seq<string>>, c: map<nat, seq<string>>, la: seq<Entry>, lb: seq<Entry>)
    requires Grows(a, c) && Grows(b, c) && LogTraced(a, la) && LogTraced(b, lb)
    requires |la| > 0 && |lb| > 0 && la[0] == lb[0]
    ensures LogsAgree(la, lb)
  {
    forall k, h | 0 <= h <= k < |la| && k < |lb| && la[k].term == lb[k].term
      ensures la[h].command == lb[h].command
    {
      if k > 0 {
        assert Traced(a, la, k);
        TracedAt(a, c[la[k].term], la, k, h);
        TracedAt(b, c[la[k].term], lb, k, h);
      }
    }
  }

  lemma TracedAt(termLog: map<nat, seq<string>>, l: seq<string>, log: seq<Entry>, k: nat, h: nat)
    requires 1 <= k < |log| && h <= k && LogTraced(termLog, log)
    requires log[k].term in termLog ==> termLog[log[k].term] <= l
    ensures h < |l| && log[h].command == l[h]
  {
    assert Traced(termLog, log, k);
    var tl := termLog[log[k].term];
    assert Commands(log)[..k + 1][h] == tl[..k + 1][h];
  }

  /** The two results together: in groups of two or three members, votes counted in their own term and the guard on
      the second section of propose are enough for log matching. */
  lemma SmallGroupLogMatching(p: Policy, states: seq<Group>, acts: seq<Action>)
    requires IsRun(states, acts) && |states[0].nodes| <= 3
    requires Follows(p, states, acts) && p.timely && p.guarded
    ensures LogsMatch(states)
  {
    forall x | 0 <= x < |states|
      ensures OneLeaderPerTerm(states[x])
    {
      VoteRun(p, states, acts, x);
      HistoryGrows(states, acts, 0, x);
      VotesElectOne(states[x]);
    }
    CommandLogMatching(p, states, acts);
  }
}
