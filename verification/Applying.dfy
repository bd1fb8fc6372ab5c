/** Applying what a Raft group has committed to the store (src/server/Server.cpp, epoll_step and makeCommand): commands
    are proposed as text, and cut up again at white space. */
module Applying {
  import opened Wrappers
  import opened RespValue
  import opened HashTableSpec
  import opened StoreSpec
  import opened KvStoreClass
  import opened Replay
  import opened Requests
  import opened Text
  import opened Raft
  import opened Aof

  /** The array of simple strings that makeCommand builds. */
  function CommandOf(cmd: string): Value {
    Array(Simples(Tokens(cmd)))
  }

  function Simples(tokens: seq<string>): (vs: seq<Value>)
    ensures |vs| == |tokens| && forall i :: 0 <= i < |vs| ==> vs[i] == Simple(tokens[i])
  {
    seq(|tokens|, i requires 0 <= i < |tokens| => Simple(tokens[i]))
  }

  /** makeCommand: tokens are extracted from the stream until it is used up. */
  method MakeCommand(cmd: string) returns (v: Value)
    ensures v == CommandOf(cmd)
  {
    var rest, tokens := SkipSpace(cmd), [];
    TokensSkip(cmd);
    while rest != []
      invariant tokens + Tokens(rest) == Tokens(cmd)
      invariant rest != [] ==> !IsSpace(rest[0])
      decreases |rest|
    {
      var n := WordEnd(rest);
      assert tokens + [rest[..n]] + Tokens(rest[n..]) == tokens + Tokens(rest);
      tokens := tokens + [rest[..n]];
      TokensSkip(rest[n..]);
      rest := SkipSpace(rest[n..]);
    }
    assert tokens + [] == tokens;
    v := Array(Simples(tokens));
  }

  // ---- the text that a master proposes ----

  /** The value as the handler of SET puts it into the text: bulk and simple strings only. None is a nil bulk string,
      whose absent payload the code reads. */
  function TextOf(v: Value): Option<string> {
    match v
    case Bulk(s) => Some(s)
    case NilBulk => None
    case Simple(s) => Some(s)
    case _ => Some("")
  }

  function SetText(key: string, text: string): string {
    "SET " + key + " " + text
  }

  function DelText(key: string): string {
    "DEL " + key
  }

  lemma SetTokens(key: string, text: string)
    ensures Tokens(SetText(key, text)) == ["SET"] + (Tokens(key) + Tokens(text))
  {
    OneToken("SET");
    SetTextSplit(key, text);
    TokensJoin("SET", ' ', key + [' '] + text);
    TokensJoin(key, ' ', text);
  }

  lemma SetTextSplit(key: string, text: string)
    ensures SetText(key, text) == "SET" + [' '] + (key + [' '] + text)
  {
    assert "SET " == "SET" + [' '] && " " == [' '];
    var rest := key + [' '] + text;
    assert "SET " + key + [' '] + text == "SET " + rest;
  }

  lemma DelTokens(key: string)
    ensures Tokens(DelText(key)) == ["DEL"] + Tokens(key)
  {
    OneToken("DEL");
    TokensJoin("DEL", ' ', key);
    assert DelText(key) == "DEL" + [' '] + key;
  }

  /** What a member applies is the SET that its master stored exactly when the key is one word and the value a simple
      string of one word. */
  lemma SetSurvives(key: string, value: Value, text: string)
    requires TextOf(value) == Some(text)
    ensures CommandOf(SetText(key, text)) == Spelled(SetReq(key, value)) <==>
              Word(key) && value.Simple? && Word(text)
  {
    SetTokens(key, text);
    var ts := Tokens(SetText(key, text));
    OneToken(key);
    OneToken(text);
    if CommandOf(SetText(key, text)) == Spelled(SetReq(key, value)) {
      var vs := Simples(ts);
      assert vs == [Simple("SET"), Simple(key), value];
      assert ts[1] == vs[1].text && ts[2] == vs[2].text;
      TokensAreWords(SetText(key, text), 1);
      TokensAreWords(SetText(key, text), 2);
    }
    if Word(key) && value.Simple? && Word(text) {
      assert ts == ["SET", key, text];
      assert Simples(ts) == [Simple("SET"), Simple(key), value];
    }
  }

  /** A DEL comes through exactly when its key is one word. */
  lemma DelSurvives(key: string)
    ensures CommandOf(DelText(key)) == Spelled(DelReq(key)) <==> Word(key)
  {
    DelTokens(key);
    var ts := Tokens(DelText(key));
    OneToken(key);
    if CommandOf(DelText(key)) == Spelled(DelReq(key)) {
      var vs := Simples(ts);
      assert vs == [Simple("DEL"), Simple(key)];
      assert ts[1] == vs[1].text;
      TokensAreWords(DelText(key), 1);
    }
    if Word(key) {
      assert Simples(ts) == [Simple("DEL"), Simple(key)];
    }
  }

  lemma SetOrNothing(v: Value)
    requires v.Array? && v.elems != [] && v.elems[0] == Simple("SET")
    requires forall i :: 0 <= i < |v.elems| ==> v.elems[i].Simple?
    ensures IsRequest(v) <==> |v.elems| == 3
  {
    if |v.elems| == 3 {
      assert v.elems == [Simple("SET"), Simple(v.elems[1].text), v.elems[2]];
      assert v == Spelled(SetReq(v.elems[1].text, v.elems[2]));
    }
    if IsRequest(v) {
      var r :| v == Spelled(r);
      assert Spelled(r).elems[0] == v.elems[0];
    }
  }

  /** The text of a SET is a request at all exactly when key and text are two words between them, and then it sets the
      first of these to the second, whichever of them the key was. */
  lemma SetIsRequest(key: string, text: string)
    ensures IsRequest(CommandOf(SetText(key, text))) <==> |Tokens(key)| + |Tokens(text)| == 2
    ensures forall x, y :: Tokens(key) + Tokens(text) == [x, y] ==>
              CommandOf(SetText(key, text)) == Spelled(SetReq(x, Simple(y)))
  {
    SetTokens(key, text);
    SetOrNothing(CommandOf(SetText(key, text)));
    forall x, y | Tokens(key) + Tokens(text) == [x, y]
      ensures CommandOf(SetText(key, text)) == Spelled(SetReq(x, Simple(y)))
    {
      assert Simples(Tokens(SetText(key, text))) == [Simple("SET"), Simple(x), Simple(y)];
    }
  }

  /** A bulk string of one word arrives, but as a simple string: the master and the other members hold different values
      for the key. */
  lemma BulkBecomesSimple(key: string, word: string)
    requires Word(key) && Word(word)
    ensures TextOf(Bulk(word)) == Some(word)
    ensures CommandOf(SetText(key, word)) == Spelled(SetReq(key, Simple(word))) != Spelled(SetReq(key, Bulk(word)))
  {
    SetSurvives(key, Simple(word), word);
    SetSurvives(key, Bulk(word), word);
  }

  /** The only value whose text is missing. */
  lemma NilHasNoText(value: Value)
    ensures TextOf(value).None? <==> value == NilBulk
  {
  }

  /** A key of two words with a value that is not a string sets the first word to the second. */
  lemma WrongKeySet(x: string, y: string, value: Value)
    requires Word(x) && Word(y) && (value.Int? || value.Array? || value.Err?)
    ensures TextOf(value) == Some("")
    ensures CommandOf(SetText(x + [' '] + y, "")) == Spelled(SetReq(x, Simple(y)))
  {
    OneToken(x);
    OneToken(y);
    TokensJoin(x, ' ', y);
    SetIsRequest(x + [' '] + y, "");
    assert Tokens(x + [' '] + y) + Tokens("") == [x, y];
  }

  // ---- a batch ----

  function CommandsOf(entries: seq<Entry>): (vs: seq<Value>)
    ensures |vs| == |entries| && forall i :: 0 <= i < |entries| ==> vs[i] == CommandOf(entries[i].command)
  {
    seq(|entries|, i requires 0 <= i < |entries| => CommandOf(entries[i].command))
  }

  /** The loop over the entries that takePendingApply hands out; an exception ends it. */
  method ApplyEntries(store: KVStore<Value>, entries: seq<Entry>) returns (ok: bool, ghost seen: seq<Value>)
    requires store.Valid()
    modifies store.Repr
    ensures Caught(store, old(store.View()), seen)
    ensures ok <==> AllHandled(store.hash, old(store.View()), CommandsOf(entries), store.lruMax)
    ensures ok ==> seen == CommandsOf(entries) && Restored(old(store.Contents()), seen, store.Contents())
    ensures !ok ==> seen <= CommandsOf(entries) && seen != []
                    && RefusedLast(store.hash, old(store.View()), store.lruMax, seen, seen[|seen| - 1])
  {
    ghost var st, all := store.View(), CommandsOf(entries);
    seen := [];
    for i := 0 to |entries|
      invariant Caught(store, st, seen) && seen == all[..i]
      invariant AllHandled(store.hash, st, seen, store.lruMax)
    {
      var cmd := MakeCommand(entries[i].command);
      assert all[..i + 1] == all[..i] + [cmd];
      ok := HandleNext(store, cmd, st, seen);
      seen := seen + [cmd];
      if !ok {
        RefusedLater(store.hash, st, store.lruMax, seen, cmd, all);
        return;
      }
    }
    assert seen == all;
    ok := true;
    HandledRestored(store.hash, st, seen, store.lruMax);
  }

  /** One proposed SET whose key and text are not two words between them is refused by every member, in every batch, and
      whatever follows it in the batch is not applied. */
  lemma UnappliedBatch(h: Hash, st: Store<Value>, entries: seq<Entry>, k: nat, key: string, text: string, max: nat)
    requires AllReady(st) && k < |entries| && entries[k].command == SetText(key, text)
    requires |Tokens(key)| + |Tokens(text)| != 2
    ensures !AllHandled(h, st, CommandsOf(entries), max)
  {
    var vs := CommandsOf(entries);
    SetIsRequest(key, text);
    OthersRefused(h, HandleAll(h, st, vs[..k], max), vs[k], max);
    RefusedInside(h, st, vs, k, max);
  }

  /** In a new store, the batch of one proposed SET of a word to a word stores the pair. */
  lemma AppliedSet(h: Hash, n: nat, e: Entry, key: string, text: string, max: nat)
    requires n > 0 && Word(key) && Word(text) && e.command == SetText(key, text)
    ensures var st := seq(n, _ => NewShard<Value>());
            && AllReady(st) && AllHandled(h, st, CommandsOf([e]), max)
            && StoreOk(h, HandleAll(h, st, CommandsOf([e]), max), max)
            && StoreMap(HandleAll(h, st, CommandsOf([e]), max)) == map[key := Simple(text)]
  {
    var st := seq(n, _ => NewShard<Value>());
    NewStoreOk<Value>(h, n, max);
    SetSurvives(key, Simple(text), text);
    var r := SetReq(key, Simple(text));
    assert CommandsOf([e]) == [] + [Spelled(r)];
    HandleSnoc(h, st, [], Spelled(r), max);
    NotStuck(h, st[Home(h, key, n)], key, max);
    HandledDoes(h, st, r, max);
  }
}

/** From one member's propose to every member's store. */
module Replication {
  import opened RespValue
  import opened HashTableSpec
  import opened Sequences
  import opened Text
  import opened StoreSpec
  import opened Replay
  import opened Raft
  import opened RaftGroup
  import opened GroupRuns
  import opened GroupProgress
  import opened Applying

  /** The member's pending batch turns a new store into one that holds exactly this pair. */
  ghost predicate AppliesTo(h: Hash, n: nat, max: nat, batch: seq<Entry>, key: string, value: Value)
    requires n > 0
  {
    var st := seq(n, _ => NewShard<Value>());
    && AllReady(st) && AllHandled(h, st, CommandsOf(batch), max)
    && StoreOk(h, HandleAll(h, st, CommandsOf(batch), max), max)
    && StoreMap(HandleAll(h, st, CommandsOf(batch), max)) == map[key := value]
  }

  /** A new group of any size, any member of it, and any hash function, shard count and capacity of the stores: a SET of
      a word to a word can be proposed by that member so that every member's store comes to hold the pair. */
  lemma SetReachesAll(s: Group, p: Policy, a: nat, key: string, text: string, h: Hash, n: nat, max: nat)
    returns (tr: Trace)
    requires Init(s) && a in s.nodes && Distinct(s.nodes[a].peers)
    requires n > 0 && Word(key) && Word(text)
    ensures From(s, p, tr)
    ensures forall q :: q == a || q in s.nodes[a].peers ==>
              q in Now(tr).nodes && AppliesTo(h, n, max, PendingApply(Now(tr).nodes[q]), key, Simple(text))
  {
    var v;
    tr, v := CommandReachesAll(s, p, a, SetText(key, text));
    AppliedSet(h, n, Entry(1, SetText(key, text)), key, text, max);
  }
}
