/** The RaftNode object of src/raft/RaftNode.cpp: its methods change the fields step by step and are proved against
    the handlers of module Raft. Random numbers are parameters; messages sent are returned. */
module RaftNodeClass {
  import opened Wrappers
  import opened Decimal
  import opened CommitRule
  import opened Raft
  import opened RaftDisk

  const ELECTION_TIMEOUT_MIN := 150
  const ELECTION_TIMEOUT_MAX := 300
  const HEARTBEAT_INTERVAL := 50

  class RaftNode {
    const selfId: nat
    const peers: seq<nat>
    var currentTerm: nat
    var votedFor: Option<nat>
    var log: seq<Entry>
    var commitIndex: nat
    var lastApplied: nat
    var role: Role
    var nextIndex: seq<nat>
    var matchIndex: seq<nat>
    var voteCount: nat
    var electionTimer: int
    var heartbeatTimer: int
    var file: string
    var diskBuf: string

    function View(): Node
      reads this
    {
      Node(selfId, peers, currentTerm, votedFor, log, commitIndex, lastApplied, role, nextIndex, matchIndex, voteCount)
    }

    function DiskView(): Disk
      reads this`file, this`diskBuf
    {
      Disk(file, diskBuf)
    }

    ghost predicate Valid()
      reads this
    {
      Shaped(View())
    }

    /** File bytes followed by the write buffer spell the log without its sentinel. */
    ghost predicate DiskInSync()
      reads this`log, this`file, this`diskBuf
    {
      InSync(DiskView(), log)
    }

    constructor (selfId: nat, peers: seq<nat>, file: string)
      ensures Valid() && this.selfId == selfId && this.peers == peers
      ensures View() == Node(selfId, peers, 0, None, [SENTINEL], 0, 0, Follower, [], [], 0)
      ensures this.file == file && diskBuf == ""
    {
      this.selfId, this.peers := selfId, peers;
      currentTerm, votedFor, log := 0, None, [SENTINEL];
      commitIndex, lastApplied, role := 0, 0, Follower;
      nextIndex, matchIndex, voteCount := [], [], 0;
      electionTimer, heartbeatTimer := 0, 0;
      this.file, diskBuf := file, "";
    }

    /** The rest of the C++ constructor: load the log, then lead at once when alone. */
    method Start(rand: nat) returns (ok: bool)
      requires View() == Node(selfId, peers, 0, None, [SENTINEL], 0, 0, Follower, [], [], 0)
      modifies this
      ensures Valid() && file == old(file) && diskBuf == old(diskBuf)
      ensures ok <==> Load(file, []).Some?
      ensures ok ==> log == [SENTINEL] + Load(file, []).value
                     && commitIndex == |log| - 1 && lastApplied == 0 && currentTerm == 0
                     && (role.Leader? <==> peers == [])
                     && votedFor.None? && nextIndex == [] && matchIndex == []
                     && (if peers == [] then heartbeatTimer == 0 else TimerReset())
    {
      ok := LoadFromDisk();
      if !ok { return; }
      if peers == [] {
        BecomeLeader();
      } else {
        ResetElectionTimer(rand);
      }
    }

    /** The election timer holds a fresh random timeout. */
    ghost predicate TimerReset()
      reads this`electionTimer
    {
      ELECTION_TIMEOUT_MIN <= electionTimer <= ELECTION_TIMEOUT_MAX
    }

    method ResetElectionTimer(rand: nat)
      modifies this`electionTimer
      ensures TimerReset() && electionTimer == 150 + rand % 151
    {
      electionTimer := ELECTION_TIMEOUT_MIN + rand % (ELECTION_TIMEOUT_MAX - ELECTION_TIMEOUT_MIN + 1);
    }

    // ---- role changes ----

    method BecomeFollower(term: nat, rand: nat)
      modifies this`role, this`currentTerm, this`votedFor, this`voteCount, this`electionTimer
      ensures View() == Raft.BecomeFollower(old(View()), term) && TimerReset()
    {
      role := Follower;
      currentTerm := term;
      votedFor := None;
      ResetElectionTimer(rand);
      voteCount := 0;
    }

    method BecomeCandidate(rand: nat)
      modifies this`role, this`currentTerm, this`votedFor, this`voteCount, this`electionTimer
      ensures View() == Raft.BecomeCandidate(old(View())) && TimerReset()
    {
      role := Candidate;
      currentTerm := (currentTerm + 1) % U64;
      votedFor := Some(selfId);
      voteCount := 1;
      ResetElectionTimer(rand);
    }

    method BecomeLeader()
      requires |log| > 0
      modifies this`role, this`nextIndex, this`matchIndex, this`voteCount, this`heartbeatTimer
      ensures View() == Raft.BecomeLeader(old(View())) && Valid() && heartbeatTimer == 0
    {
      role := Leader;
      var next := |log| - 1 + 1;
      nextIndex := seq(|peers|, _ => next);
      matchIndex := seq(|peers|, _ => 0);
      voteCount := 0;
      heartbeatTimer := 0;
      assert nextIndex == Raft.BecomeLeader(old(View())).nextIndex;
      assert matchIndex == Raft.BecomeLeader(old(View())).matchIndex;
    }

    // ---- time ----

    /** One tick: the buffer is flushed; a leader broadcasts when its heartbeat is due, anyone else starts an
        election when its timer runs out. */
    method Tick(rand: nat) returns (sent: seq<Envelope>)
      requires Valid()
      modifies this
      ensures Valid() && diskBuf == "" && file == old(file + diskBuf)
      ensures var due := if old(role).Leader? then old(heartbeatTimer) <= 1 else old(electionTimer) <= 1;
              if due
              then Some(Effect(View(), sent)) == NodeStep(old(View()), if old(role).Leader? then Broadcast else Timeout)
              else View() == old(View()) && sent == []
      ensures old(role).Leader? ==>
                electionTimer == old(electionTimer)
                && heartbeatTimer == if old(heartbeatTimer) <= 1 then HEARTBEAT_INTERVAL else old(heartbeatTimer) - 1
      ensures !old(role).Leader? ==>
                heartbeatTimer == old(heartbeatTimer)
                && if old(electionTimer) <= 1 then TimerReset() else electionTimer == old(electionTimer) - 1
    {
      FlushDisk();
      sent := [];
      if role == Leader {
        heartbeatTimer := heartbeatTimer - 1;
        if heartbeatTimer <= 0 {
          heartbeatTimer := HEARTBEAT_INTERVAL;
          sent := SendToPeers();
        }
        return;
      }
      electionTimer := electionTimer - 1;
      if electionTimer <= 0 {
        BecomeCandidate(rand);
        sent := VoteRequests(View(), peers);
      }
    }

    method SendToPeers() returns (sent: seq<Envelope>)
      requires Sized(View())
      ensures sent == SendToAll(View(), peers)
    {
      sent := [];
      for i := 0 to |peers|
        invariant sent == SendToAll(View(), peers[..i])
      {
        assert peers[..i + 1][..i] == peers[..i];
        sent := sent + SendAppend(View(), peers[i]);
      }
      assert peers[..|peers|] == peers;
    }

    // ---- messages ----

    /** step: dispatch on the message kind. */
    method Step(from: nat, m: Msg, rand: nat) returns (sent: seq<Envelope>, defined: bool)
      requires Valid()
      modifies this
      ensures defined <==> NodeStep(old(View()), Receive(from, m)).Some?
      ensures !m.AppendEntries? ==> file == old(file) && diskBuf == old(diskBuf)
      ensures defined ==> Valid() && Some(Effect(View(), sent)) == NodeStep(old(View()), Receive(from, m))
    {
      defined := true;
      match m {
        case AppendEntries(_, _, _, _, _) => sent := HandleAppendEntries(from, m, rand);
        case AppendReply(_, _, _) => sent, defined := HandleAppendReply(from, m, rand);
        case RequestVote(_, _, _) => sent := HandleRequestVote(from, m, rand);
        case VoteReply(_, _) => sent := HandleVoteReply(m, rand);
      }
    }

    /** handleAppendEntries. The disk changes only when the entries are accepted, and then as DiskAfter says, so that a
        disk in step with the log stays so if the log only grew; InSyncAfter says exactly when. */
    method HandleAppendEntries(from: nat, m: Msg, rand: nat) returns (sent: seq<Envelope>)
      requires Valid() && m.AppendEntries?
      modifies this`role, this`currentTerm, this`votedFor, this`voteCount, this`electionTimer
      modifies this`log, this`commitIndex, this`file, this`diskBuf
      ensures Valid() && Effect(View(), sent) == OnAppendEntries(old(View()), from, m)
      ensures if m.term < old(currentTerm) then electionTimer == old(electionTimer) else TimerReset()
      ensures DiskView() == if m.term >= old(currentTerm) && Consistent(old(log), m.prevIdx, m.prevTerm)
                            then DiskAfter(old(DiskView()), old(log), m.prevIdx + 1, m.term, m.cmds)
                            else old(DiskView())
      ensures old(log) <= log && old(DiskInSync()) ==> DiskInSync()
    {
      if m.term < currentTerm {
        return [Envelope(from, AppendReply(currentTerm, false, 0))];
      }
      if m.term > currentTerm || role == Candidate {
        BecomeFollower(m.term, rand);
      }
      ResetElectionTimer(rand);
      if m.prevIdx > 0 && (m.prevIdx >= |log| || log[m.prevIdx].term != m.prevTerm) {
        return [Envelope(from, AppendReply(currentTerm, false, 0))];
      }
      sent := Accept(from, m);
    }

    /** handleAppendEntries past the consistency check. */
    method Accept(from: nat, m: Msg) returns (sent: seq<Envelope>)
      requires m.AppendEntries? && m.prevIdx < |log|
      modifies this`log, this`file, this`diskBuf, this`commitIndex
      ensures |log| > 0 && View() == AcceptEntries(old(View()), m)
      ensures sent == [Envelope(from, AppendReply(currentTerm, true, |log| - 1))]
      ensures DiskView() == DiskAfter(old(DiskView()), old(log), m.prevIdx + 1, m.term, m.cmds)
      ensures old(log) <= log && old(DiskInSync()) ==> DiskInSync()
    {
      GrownStaysInSync(DiskView(), log, m.prevIdx + 1, m.term, m.cmds);
      var truncated := AppendLoop(m.prevIdx, m.term, m.cmds);
      if truncated {
        RewriteDisk();
      }
      if m.leaderCommit > commitIndex {
        commitIndex := Min(m.leaderCommit, |log| - 1);
      }
      sent := [Envelope(from, AppendReply(currentTerm, true, |log| - 1))];
    }

    /** The loop over the entries of a message. */
    method AppendLoop(prevIdx: nat, term: nat, cmds: seq<string>) returns (truncated: bool)
      requires prevIdx < |log|
      modifies this`log, this`file, this`diskBuf
      ensures log == Merge(old(log), prevIdx + 1, term, cmds) && |log| > 0
      ensures DiskView() == PutAll(old(DiskView()), NewEntries(old(log), prevIdx + 1, term, cmds))
      ensures truncated <==> Clashes(old(log), prevIdx + 1, term, |cmds|)
    {
      truncated := false;
      ghost var start, disk := prevIdx + 1, PutAll(DiskView(), NewEntries(log, prevIdx + 1, term, cmds));
      for i := 0 to |cmds|
        invariant start + i <= |log|
        invariant Merge(log, start + i, term, cmds[i..]) == Merge(old(log), start, term, cmds)
        invariant PutAll(DiskView(), NewEntries(log, start + i, term, cmds[i..])) == disk
        invariant truncated || Clashes(log, start + i, term, |cmds| - i) <==> Clashes(old(log), start, term, |cmds|)
      {
        AppendTurn(DiskView(), log, start + i, term, cmds[i..]);
        assert cmds[i..][1..] == cmds[i + 1..];
        var cut := AppendOne(prevIdx + 1 + i, term, cmds[i]);
        truncated := truncated || cut;
      }
      assert cmds[|cmds|..] == [];
    }

    /** One turn of the loop. */
    method AppendOne(idx: nat, term: nat, cmd: string) returns (cut: bool)
      requires 0 < idx <= |log|
      modifies this`log, this`file, this`diskBuf
      ensures if idx < |old(log)| && old(log)[idx].term == term
              then log == old(log) && DiskView() == old(DiskView())
              else log == old(log)[..idx] + [Entry(term, cmd)] && DiskView() == Put(old(DiskView()), Entry(term, cmd))
      ensures cut <==> idx < |old(log)| && old(log)[idx].term != term
    {
      cut := false;
      if idx < |log| && log[idx].term != term {
        log := log[..idx];
        cut := true;
      }
      if idx >= |log| {
        assert log == old(log)[..idx];
        PushEntry(Entry(term, cmd));
      }
    }

    /** log.push_back and appendToDisk. */
    method PushEntry(e: Entry)
      requires |log| > 0
      modifies this`log, this`file, this`diskBuf
      ensures log == old(log) + [e] && DiskView() == Put(old(DiskView()), e)
      ensures old(DiskInSync()) ==> DiskInSync()
    {
      log := log + [e];
      AppendToDisk(e);
      SpellOneMore(old(log), e);
    }

    method HandleAppendReply(from: nat, m: Msg, rand: nat) returns (sent: seq<Envelope>, defined: bool)
      requires Valid() && m.AppendReply?
      modifies this`role, this`currentTerm, this`votedFor, this`voteCount, this`electionTimer
      modifies this`nextIndex, this`matchIndex, this`commitIndex
      ensures defined <==> OnAppendReply(old(View()), from, m).Some?
      ensures defined ==> Valid() && Some(Effect(View(), sent)) == OnAppendReply(old(View()), from, m)
      ensures if old(role).Leader? && m.term > old(currentTerm) then TimerReset()
              else electionTimer == old(electionTimer)
    {
      sent, defined := [], true;
      if role != Leader { return; }
      if m.term > currentTerm {
        BecomeFollower(m.term, rand);
        return;
      }
      var pi := PeerIndex(peers, from);
      if pi >= |peers| { return; }
      if m.success {
        nextIndex := nextIndex[pi := (m.matchIdx + 1) % U64];
        matchIndex := matchIndex[pi := m.matchIdx];
        defined := AdvanceCommitIndex();
      } else {
        if nextIndex[pi] > 1 {
          nextIndex := nextIndex[pi := nextIndex[pi] - 1];
        }
        sent := SendAppend(View(), from);
      }
    }

    method AdvanceCommitIndex() returns (defined: bool)
      requires Valid() && role.Leader?
      modifies this`commitIndex
      ensures defined <==> AdvanceCommit(old(View())).Some?
      ensures defined ==> Some(View()) == AdvanceCommit(old(View()))
    {
      var sorted := SortDesc(matchIndex + [|log| - 1]);
      var newCommit := sorted[Quorum(|peers|) - 1];
      defined := true;
      if newCommit > commitIndex {
        if newCommit >= |log| {
          defined := false;
        } else if log[newCommit].term == currentTerm {
          commitIndex := newCommit;
        }
      }
    }

    method HandleRequestVote(from: nat, m: Msg, rand: nat) returns (sent: seq<Envelope>)
      requires Valid() && m.RequestVote?
      modifies this`role, this`currentTerm, this`votedFor, this`voteCount, this`electionTimer
      ensures Valid() && Effect(View(), sent) == OnRequestVote(old(View()), from, m)
      ensures sent == [Envelope(from, VoteReply(currentTerm, true))] || m.term > old(currentTerm) ==> TimerReset()
      ensures sent != [Envelope(from, VoteReply(currentTerm, true))] && m.term <= old(currentTerm) ==>
                electionTimer == old(electionTimer)
    {
      if m.term < currentTerm {
        return [Envelope(from, VoteReply(currentTerm, false))];
      }
      if m.term > currentTerm {
        BecomeFollower(m.term, rand);
      }
      var lastTerm := if |log| <= 1 then 0 else log[|log| - 1].term;
      var logOk := m.lastTerm > lastTerm || (m.lastTerm == lastTerm && m.lastIdx >= |log| - 1);
      var canVote := votedFor.None? || votedFor.value == from;
      if canVote && logOk {
        votedFor := Some(from);
        ResetElectionTimer(rand);
        sent := [Envelope(from, VoteReply(currentTerm, true))];
      } else {
        sent := [Envelope(from, VoteReply(currentTerm, false))];
      }
    }

    method HandleVoteReply(m: Msg, rand: nat) returns (sent: seq<Envelope>)
      requires Valid() && m.VoteReply?
      modifies this`role, this`currentTerm, this`votedFor, this`voteCount, this`electionTimer
      modifies this`nextIndex, this`matchIndex, this`heartbeatTimer
      ensures Valid() && Effect(View(), sent) == OnVoteReply(old(View()), m)
      ensures role.Leader? && !old(role).Leader? ==> heartbeatTimer == 0
      ensures if old(role).Candidate? && m.term > old(currentTerm) then TimerReset()
              else electionTimer == old(electionTimer)
    {
      sent := [];
      if role != Candidate { return; }
      if m.term > currentTerm {
        BecomeFollower(m.term, rand);
        return;
      }
      if m.granted {
        voteCount := voteCount + 1;
        if voteCount >= Quorum(|peers|) {
          BecomeLeader();
        }
      }
    }

    // ---- commands ----

    /** propose up to its second locked section: append to the log, then to the disk. */
    method Propose(cmd: string) returns (accepted: bool)
      requires Valid()
      modifies this`log, this`commitIndex, this`file, this`diskBuf
      ensures Valid() && View() == OnPropose(old(View()), cmd).node && accepted == role.Leader?
      ensures old(DiskInSync()) ==> DiskInSync()
    {
      if role != Leader { return false; }
      PushEntry(Entry(currentTerm, cmd));
      if peers == [] {
        commitIndex := |log| - 1;
      }
      accepted := true;
    }

    /** The second locked section of propose, after an accepted one: it sends whatever the role has become. */
    method SendProposed() returns (sent: seq<Envelope>)
      requires Valid() && Sized(View())
      ensures Some(Effect(View(), sent)) == NodeStep(View(), Raft.SendProposed)
    {
      sent := SendToPeers();
    }

    /** takePendingApply: every entry between the applied and the committed index, once and in order. */
    method TakePendingApply() returns (result: seq<Entry>)
      modifies this`lastApplied
      ensures result == PendingApply(old(View()))
      ensures lastApplied == (if old(lastApplied) < commitIndex then commitIndex else old(lastApplied))
    {
      result := [];
      ghost var lo := Min(lastApplied + 1, |log|);
      while lastApplied < commitIndex
        invariant lastApplied <= commitIndex || lastApplied == old(lastApplied)
        invariant lo <= Min(lastApplied + 1, |log|)
        invariant result == log[lo..Min(lastApplied + 1, |log|)]
      {
        lastApplied := lastApplied + 1;
        if lastApplied < |log| {
          assert log[lo..lastApplied + 1] == log[lo..lastApplied] + [log[lastApplied]];
          result := result + [log[lastApplied]];
        }
      }
    }

    // ---- disk ----

    method AppendToDisk(e: Entry)
      modifies this`file, this`diskBuf
      ensures DiskView() == Put(old(DiskView()), e)
      ensures file + diskBuf == old(file + diskBuf) + Line(e)
      ensures if |old(diskBuf)| + |Line(e)| < 1024 then file == old(file) else diskBuf == ""
    {
      diskBuf := diskBuf + Line(e);
      if |diskBuf| >= DISK_BUFFER {
        file := file + diskBuf;
        diskBuf := "";
      }
    }

    method FlushDisk()
      modifies this`file, this`diskBuf
      ensures diskBuf == "" && file == old(file + diskBuf)
    {
      if diskBuf == "" { return; }
      file := file + diskBuf;
      diskBuf := "";
    }

    /** rewriteDisk replaces the file and leaves the write buffer as it is. */
    method RewriteDisk()
      requires |log| > 0
      modifies this`file
      ensures file == Spell(log[1..])
    {
      file := "";
      assert log[1..1] == [];
      for i := 1 to |log|
        invariant file == Spell(log[1..i])
      {
        assert log[1..i + 1][..i - 1] == log[1..i];
        file := file + Line(log[i]);
      }
      assert log[1..|log|] == log[1..];
    }

    /** loadFromDisk: the getline loop. */
    method LoadFromDisk() returns (ok: bool)
      requires log == [SENTINEL]
      modifies this`log, this`commitIndex, this`lastApplied
      ensures ok <==> Load(file, []).Some?
      ensures ok ==> log == [SENTINEL] + Load(file, []).value && commitIndex == |log| - 1 && lastApplied == 0
      ensures |log| > 0
    {
      var rest := file;
      assert log[1..] == [];
      while rest != []
        invariant |log| > 0 && log[0] == SENTINEL
        invariant Load(file, []) == Load(rest, log[1..])
        decreases |rest|
      {
        var i := IndexOf(rest, '\n');
        var es := ParseLine(rest[..i]);
        if es.None? {
          return false;
        }
        ghost var before := log;
        log := log + es.value;
        assert log[1..] == before[1..] + es.value;
        rest := if i < |rest| then rest[i + 1..] else [];
      }
      assert log == [SENTINEL] + log[1..];
      commitIndex := |log| - 1;
      lastApplied := 0;
      ok := true;
    }
  }

  lemma SpellOneMore(log: seq<Entry>, e: Entry)
    requires |log| > 0
    ensures Spell((log + [e])[1..]) == Spell(log[1..]) + Line(e)
  {
    var es := (log + [e])[1..];
    assert es[..|es| - 1] == log[1..];
  }

  /** A node that ran on an empty file, only ever grew its log with storable entries, and was flushed: a new node
      started on that file has the same log, and its first apply batch is the whole log, once and in order. */
  method RestartAfterFlush(n: RaftNode, rand: nat) returns (m: RaftNode, batch: seq<Entry>)
    requires n.Valid() && n.DiskInSync() && n.log[0] == SENTINEL
    requires forall i :: 1 <= i < |n.log| ==> Storable(n.log[i])
    modifies n`file, n`diskBuf
    ensures m.log == n.log && batch == n.log[1..] && m.lastApplied == |n.log| - 1
  {
    assert [SENTINEL] + n.log[1..] == n.log;
    m := FlushAndRestart(n, rand, n.log[1..]);
    batch := m.TakePendingApply();
  }

  /** What one turn of the append loop leaves for the others. */
  lemma AppendTurn(d: Disk, log: seq<Entry>, idx: nat, term: nat, cmds: seq<string>)
    requires idx <= |log| && cmds != []
    ensures var stays, e := idx < |log| && log[idx].term == term, Entry(term, cmds[0]);
            var log', d' := if stays then log else log[..idx] + [e], if stays then d else Put(d, e);
            && Merge(log, idx, term, cmds) == Merge(log', idx + 1, term, cmds[1..])
            && PutAll(d, NewEntries(log, idx, term, cmds)) == PutAll(d', NewEntries(log', idx + 1, term, cmds[1..]))
            && (Clashes(log, idx, term, |cmds|) <==>
                  (!stays && idx < |log|) || Clashes(log', idx + 1, term, |cmds| - 1))
  {
    if !(idx < |log| && log[idx].term == term) {
      var e := Entry(term, cmds[0]);
      var rest := NewEntries(log[..idx] + [e], idx + 1, term, cmds[1..]);
      assert ([e] + rest)[1..] == rest;
      assert idx == |log| ==> log[..idx] == log;
    }
  }

  lemma GrownStaysInSync(d: Disk, log: seq<Entry>, idx: nat, term: nat, cmds: seq<string>)
    requires 0 < idx <= |log|
    ensures log <= Merge(log, idx, term, cmds) && InSync(d, log) ==>
              InSync(DiskAfter(d, log, idx, term, cmds), Merge(log, idx, term, cmds))
  {
    TruncatesWhen(log, idx, term, cmds);
    if !Clashes(log, idx, term, |cmds|) && InSync(d, log) {
      GrowthKeepsSync(d, log, idx, term, cmds);
    }
  }

  /** A flushed node, started again on a file that spells some storable entries, holds these after the sentinel. */
  method FlushAndRestart(n: RaftNode, rand: nat, ghost es: seq<Entry>) returns (r: RaftNode)
    requires n.file + n.diskBuf == Spell(es) && forall e :: e in es ==> Storable(e)
    modifies n`file, n`diskBuf
    ensures fresh(r) && r.log == [SENTINEL] + es && r.commitIndex == |es| && r.lastApplied == 0
  {
    n.FlushDisk();
    r := new RaftNode(n.selfId, n.peers, n.file);
    LoadExactly(es);
    var ok := r.Start(rand);
  }

  /** A node whose file spells its log while some entries are still buffered, as a truncation leaves it: flushed and
      started again, it has the log followed by those entries once more. */
  method RestartAfterTruncation(n: RaftNode, rand: nat, ghost held: seq<Entry>) returns (r: RaftNode)
    requires n.Valid() && n.log[0] == SENTINEL && n.file == Spell(n.log[1..]) && n.diskBuf == Spell(held)
    requires (forall e :: e in n.log[1..] ==> Storable(e)) && (forall e :: e in held ==> Storable(e))
    modifies n`file, n`diskBuf
    ensures r.log == n.log + held
  {
    SpellConcat(n.log[1..], held);
    assert [SENTINEL] + (n.log[1..] + held) == n.log + held;
    r := FlushAndRestart(n, rand, n.log[1..] + held);
  }

  // ---- time ----

  /** A member that has just reset its timer keeps quiet for 149 ticks, whatever the random numbers are. */
  method KeepsQuiet(n: RaftNode, rands: seq<nat>) returns (sent: seq<Envelope>)
    requires n.Valid() && !n.role.Leader? && n.TimerReset() && |rands| <= 149
    modifies n
    ensures sent == [] && n.View() == old(n.View())
  {
    sent := [];
    for i := 0 to |rands|
      invariant sent == [] && n.View() == old(n.View()) && n.Valid()
      invariant n.electionTimer == old(n.electionTimer) - i
    {
      var more := n.Tick(rands[i]);
      sent := sent + more;
    }
  }

  /** And it has called an election by the 300th tick: the ticks before changed nothing, and this one asks every peer
      for its vote in the next term. */
  method CallsElection(n: RaftNode, rands: seq<nat>) returns (sent: seq<Envelope>, ticks: nat)
    requires n.Valid() && !n.role.Leader? && n.TimerReset() && |rands| == 300
    modifies n
    ensures 150 <= ticks <= 300 && ticks == old(n.electionTimer)
    ensures Some(Effect(n.View(), sent)) == NodeStep(old(n.View()), Timeout)
  {
    sent, ticks := [], 0;
    ghost var start := n.electionTimer;
    while n.electionTimer > 1
      invariant sent == [] && n.View() == old(n.View()) && n.Valid()
      invariant 1 <= n.electionTimer == start - ticks <= 300
    {
      sent := n.Tick(rands[ticks]);
      ticks := ticks + 1;
    }
    sent := n.Tick(rands[ticks]);
    ticks := ticks + 1;
  }

  /** One tick of a leader. */
  method LeaderTick(n: RaftNode, rand: nat) returns (sent: seq<Envelope>)
    requires n.Valid() && n.role.Leader?
    modifies n
    ensures n.View() == old(n.View()) && sent == if old(n.heartbeatTimer) <= 1 then SendToAll(n.View(), n.peers) else []
    ensures n.heartbeatTimer == if old(n.heartbeatTimer) <= 1 then 50 else old(n.heartbeatTimer) - 1
  {
    sent := n.Tick(rand);
  }

  /** In any 50 ticks a leader sends to its peers exactly once, so at least twice while a member keeps quiet that has
      heard from it. */
  method BeatsOnce(n: RaftNode, rands: seq<nat>) returns (sent: seq<Envelope>)
    requires n.Valid() && n.role.Leader? && 0 <= n.heartbeatTimer <= 50 && |rands| == 50
    modifies n
    ensures n.View() == old(n.View()) && sent == SendToAll(n.View(), n.peers) && 0 <= n.heartbeatTimer <= 50
  {
    sent := [];
    ghost var start := if n.heartbeatTimer == 0 then 1 else n.heartbeatTimer;
    ghost var beat := SendToAll(n.View(), n.peers);
    for i := 0 to 50
      invariant n.View() == old(n.View())
      invariant sent == if i < start then [] else beat
      invariant i == 0 || n.heartbeatTimer == if i < start then start - i else start + 50 - i
      invariant i == 0 ==> n.heartbeatTimer == old(n.heartbeatTimer)
    {
      var more := LeaderTick(n, rands[i]);
      sent := sent + more;
    }
  }
}
