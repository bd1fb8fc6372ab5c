/** The Raft log on disk (src/raft/RaftNode.cpp, appendToDisk, rewriteDisk and loadFromDisk): one text line per entry,
    written through a buffer. */
module RaftDisk {
  import opened Wrappers
  import opened Decimal
  import opened Text
  import opened Raft

  function Line(e: Entry): string {
    ToString(e.term) + " " + e.command + "\n"
  }

  /** The lines of a log, one after the other. */
  function Spell(es: seq<Entry>): string {
    if es == [] then [] else Spell(es[..|es| - 1]) + Line(es[|es| - 1])
  }

  /** string::find; the length when absent. */
  function IndexOf(s: string, c: char): (i: nat)
    ensures i <= |s| && c !in s[..i]
    ensures i < |s| ==> s[i] == c
    ensures i == |s| ==> c !in s
  {
    if s == [] || s[0] == c then 0
    else
      var i := 1 + IndexOf(s[1..], c);
      assert s[..i] == [s[0]] + s[1..][..i - 1];
      i
  }

  /** The leading digits of a string. */
  function DigitPrefix(s: string): (r: string)
    ensures AllDigits(r) && r <= s
  {
    if s == [] || !IsDigit(s[0]) then [] else [s[0]] + DigitPrefix(s[1..])
  }

  /** std::stoull: white space, a sign, digits, and anything after them; a minus sign negates modulo 2^64. None is the
      exception. */
  function ParseTerm(s: string): (r: Option<nat>)
    ensures r.Some? ==> r.value < U64
  {
    var t := SkipSpace(s);
    var signed := t != [] && (t[0] == '+' || t[0] == '-');
    var d := DigitPrefix(if signed then t[1..] else t);
    if d == [] || FromDigits(d) >= U64 then None
    else Some(if signed && t[0] == '-' then (U64 - FromDigits(d)) % U64 else FromDigits(d))
  }

  /** The entries one line contributes: none when it is empty or has no space. */
  function ParseLine(line: string): Option<seq<Entry>> {
    var sp := IndexOf(line, ' ');
    if sp == |line| then Some([])
    else
      var t := ParseTerm(line[..sp]);
      if t.None? then None else Some([Entry(t.value, line[sp + 1..])])
  }

  /** The getline loop of loadFromDisk, continuing from the entries read so far. */
  function Load(s: string, done: seq<Entry>): Option<seq<Entry>>
    decreases |s|
  {
    if s == [] then Some(done)
    else
      var i := IndexOf(s, '\n');
      var es := ParseLine(s[..i]);
      if es.None? then None
      else if i == |s| then Some(done + es.value) else Load(s[i + 1..], done + es.value)
  }

  predicate Storable(e: Entry) {
    e.term < U64 && '\n' !in e.command
  }

  lemma {:induction false} DigitPrefixStops(d: string, rest: string)
    requires AllDigits(d) && (rest == [] || !IsDigit(rest[0]))
    ensures DigitPrefix(d + rest) == d
  {
    if d == [] {
      assert d + rest == rest;
    } else {
      assert (d + rest)[1..] == d[1..] + rest;
      DigitPrefixStops(d[1..], rest);
    }
  }

  lemma {:induction false} SkipSpaceStops(w: string, rest: string)
    requires Blank(w) && (rest == [] || !IsSpace(rest[0]))
    ensures SkipSpace(w + rest) == rest
  {
    if w == [] {
      assert w + rest == rest;
    } else {
      assert (w + rest)[1..] == w[1..] + rest;
      SkipSpaceStops(w[1..], rest);
    }
  }

  /** What the digits and the sign before them amount to. */
  function TermValue(minus: bool, n: nat): Option<nat> {
    if n >= 0x1_0000_0000_0000_0000 then None
    else if minus && n > 0 then Some(0x1_0000_0000_0000_0000 - n)
    else Some(n)
  }

  lemma TermAfterSpace(s: string, t: string, u: string, d: string)
    requires SkipSpace(s) == t && t != [] && d != [] && AllDigits(d) && DigitPrefix(u) == d
    requires u == if t[0] == '+' || t[0] == '-' then t[1..] else t
    ensures ParseTerm(s) == TermValue(t[0] == '-', FromDigits(d))
  {
  }

  lemma SignFirst(sign: string, d: string, rest: string)
    requires sign in {"", "+", "-"} && d != [] && AllDigits(d)
    ensures var t := sign + d + rest;
            && t != [] && !IsSpace(t[0]) && (t[0] == '-' <==> sign == "-")
            && d + rest == if t[0] == '+' || t[0] == '-' then t[1..] else t
  {
    var t := sign + d + rest;
    if sign == "" {
      assert t == d + rest && t[0] == d[0];
    } else {
      assert t[1..] == d + rest && t[0] == sign[0];
    }
  }

  /** A term may have white space and a sign before its digits and anything after them. A minus sign takes it from
      2^64, and a number of 2^64 or more is an exception. */
  lemma TermText(w: string, sign: string, d: string, rest: string)
    requires Blank(w) && sign in {"", "+", "-"} && AllDigits(d) && d != [] && (rest == [] || !IsDigit(rest[0]))
    ensures ParseTerm(w + (sign + d + rest)) == TermValue(sign == "-", FromDigits(d))
  {
    var t := sign + d + rest;
    SignFirst(sign, d, rest);
    SkipSpaceStops(w, t);
    DigitPrefixStops(d, rest);
    TermAfterSpace(w + t, t, d + rest, d);
  }

  /** Text of any other form is an exception. */
  lemma TermForm(s: string) returns (w: string, sign: string, d: string, rest: string)
    requires ParseTerm(s).Some?
    ensures s == w + (sign + d + rest) && Blank(w) && sign in {"", "+", "-"} && AllDigits(d) && d != []
    ensures rest == [] || !IsDigit(rest[0])
  {
    w := SkippedSpace(s);
    sign, d, rest := SignAndDigits(SkipSpace(s));
  }

  lemma SignAndDigits(t: string) returns (sign: string, d: string, rest: string)
    ensures t == sign + d + rest && sign in {"", "+", "-"} && AllDigits(d)
    ensures rest == [] || !IsDigit(rest[0])
    ensures d == DigitPrefix(if t != [] && (t[0] == '+' || t[0] == '-') then t[1..] else t)
  {
    if t != [] && t[0] == '+' {
      d, rest := SplitDigits(t[1..]);
      sign := "+";
    } else if t != [] && t[0] == '-' {
      d, rest := SplitDigits(t[1..]);
      sign := "-";
    } else {
      d, rest := SplitDigits(t);
      sign := "";
    }
    JoinThree(t, sign, d, rest);
  }

  lemma JoinThree(t: string, sign: string, d: string, rest: string)
    requires if sign == "" then t == d + rest else |sign| == 1 && t != [] && t[0] == sign[0] && t[1..] == d + rest
    ensures t == sign + d + rest
  {
    if sign != "" {
      assert t == [t[0]] + t[1..] && sign == [t[0]];
      assert sign + (d + rest) == sign + d + rest;
    }
  }

  lemma SplitDigits(u: string) returns (d: string, rest: string)
    ensures u == d + rest && d == DigitPrefix(u) && (rest == [] || !IsDigit(rest[0]))
  {
    d := DigitPrefix(u);
    rest := u[|d|..];
    DigitPrefixEnds(u);
  }

  lemma {:induction false} SkippedSpace(s: string) returns (w: string)
    ensures Blank(w) && s == w + SkipSpace(s)
  {
    w := "";
    if s != [] && IsSpace(s[0]) {
      w := SkippedSpace(s[1..]);
      w := [s[0]] + w;
    }
  }

  lemma {:induction false} DigitPrefixEnds(s: string)
    ensures |DigitPrefix(s)| < |s| ==> !IsDigit(s[|DigitPrefix(s)|])
  {
    if s != [] && IsDigit(s[0]) {
      DigitPrefixEnds(s[1..]);
    }
  }

  lemma {:induction false} IndexOfFirst(a: string, c: char, b: string)
    requires c !in a
    ensures IndexOf(a + [c] + b, c) == |a|
  {
    var s := a + [c] + b;
    if a == [] {
    } else {
      assert s[1..] == a[1..] + [c] + b;
      IndexOfFirst(a[1..], c, b);
    }
  }

  lemma ParseLineInverts(e: Entry)
    requires e.term < U64
    ensures ParseLine(ToString(e.term) + " " + e.command) == Some([e])
  {
    var t := ToString(e.term);
    var line := t + " " + e.command;
    assert " " == [' '];
    IndexOfFirst(t, ' ', e.command);
    assert line[..|t|] == t;
    assert line[|t| + 1..] == e.command;
    assert SkipSpace(t) == t;
    DigitPrefixStops(t, []);
    assert t + [] == t;
    ToStringRoundTrip(e.term);
  }

  lemma {:induction false} NoNewline(e: Entry)
    requires Storable(e)
    ensures '\n' !in ToString(e.term) + " " + e.command
  {
  }

  lemma LoadOne(e: Entry, rest: string, done: seq<Entry>)
    requires Storable(e)
    ensures Load(Line(e) + rest, done) == Load(rest, done + [e])
  {
    var line := ToString(e.term) + " " + e.command;
    var s := Line(e) + rest;
    assert s == line + ['\n'] + rest;
    NoNewline(e);
    IndexOfFirst(line, '\n', rest);
    assert s[..|line|] == line;
    assert s[|line| + 1..] == rest;
    ParseLineInverts(e);
  }

  lemma {:induction false} LoadSpelled(es: seq<Entry>, rest: string, done: seq<Entry>)
    requires forall i :: 0 <= i < |es| ==> Storable(es[i])
    ensures Load(Spell(es) + rest, done) == Load(rest, done + es)
    decreases |es|
  {
    if es == [] {
      assert Spell(es) + rest == rest;
      assert done + es == done;
    } else {
      var init, e := es[..|es| - 1], es[|es| - 1];
      assert Spell(es) + rest == Spell(init) + (Line(e) + rest);
      LoadSpelled(init, Line(e) + rest, done);
      LoadOne(e, rest, done + init);
      assert done + init + [e] == done + es;
    }
  }

  ghost predicate AllStorable(es: seq<Entry>) {
    forall i :: 0 <= i < |es| ==> Storable(es[i])
  }

  lemma LineIsStorable(line: string)
    requires '\n' !in line
    ensures ParseLine(line).Some? ==> AllStorable(ParseLine(line).value)
  {
    var sp := IndexOf(line, ' ');
    assert sp < |line| ==> forall c :: c in line[sp + 1..] ==> c in line;
  }

  lemma {:induction false} LoadedAreStorable(s: string, done: seq<Entry>)
    requires AllStorable(done)
    ensures Load(s, done).Some? ==> AllStorable(Load(s, done).value)
    decreases |s|
  {
    if s == [] {
    } else {
      var i := IndexOf(s, '\n');
      var es := ParseLine(s[..i]);
      LineIsStorable(s[..i]);
      if es.Some? {
        assert AllStorable(done + es.value);
        if i < |s| {
          LoadedAreStorable(s[i + 1..], done + es.value);
        }
      }
    }
  }

  /** Loading what was spelled rebuilds the entries exactly when every command is free of newlines and every term
      fits in 64 bits. */
  lemma LoadExactly(es: seq<Entry>)
    ensures Load(Spell(es), []) == Some(es) <==> forall i :: 0 <= i < |es| ==> Storable(es[i])
  {
    if forall i :: 0 <= i < |es| ==> Storable(es[i]) {
      LoadSpelled(es, [], []);
      assert Spell(es) + [] == Spell(es);
      assert [] + es == es;
    } else {
      LoadedAreStorable(Spell(es), []);
    }
  }

  // ---- the write buffer ----

  const DISK_BUFFER := 1024

  datatype Disk = Disk(file: string, buf: string)

  /** appendToDisk. */
  function Put(d: Disk, e: Entry): Disk {
    var b := d.buf + Line(e);
    if |b| >= DISK_BUFFER then Disk(d.file + b, "") else Disk(d.file, b)
  }

  function PutAll(d: Disk, es: seq<Entry>): Disk
    decreases |es|
  {
    if es == [] then d else PutAll(Put(d, es[0]), es[1..])
  }

  predicate InSync(d: Disk, log: seq<Entry>) {
    |log| > 0 && d.file + d.buf == Spell(log[1..])
  }

  lemma SpellSnoc(es: seq<Entry>, e: Entry)
    ensures Spell(es + [e]) == Spell(es) + Line(e)
  {
    assert (es + [e])[..|es|] == es;
  }

  lemma Associates(x: string, y: string, z: string)
    ensures x + y + z == x + (y + z)
  {
  }

  lemma {:induction false} SpellConcat(a: seq<Entry>, b: seq<Entry>)
    ensures Spell(a + b) == Spell(a) + Spell(b)
    decreases |b|
  {
    if b == [] {
      assert a + b == a;
    } else {
      var init, e := b[..|b| - 1], b[|b| - 1];
      var ab := a + init;
      SpellConcat(a, init);
      assert a + b == ab + [e];
      SpellSnoc(ab, e);
      Associates(Spell(a), Spell(init), Line(e));
    }
  }

  lemma PutKeepsSync(d: Disk, log: seq<Entry>, e: Entry)
    requires InSync(d, log)
    ensures InSync(Put(d, e), log + [e])
  {
    assert (log + [e])[1..] == log[1..] + [e];
    SpellSnoc(log[1..], e);
    Associates(d.file, d.buf, Line(e));
    assert d.file + (d.buf + Line(e)) + "" == d.file + (d.buf + Line(e));
  }

  /** The entries in a buffer that held some, after more were appended. */
  function Held(held: seq<Entry>, es: seq<Entry>): seq<Entry>
    decreases |es|
  {
    if es == [] then held
    else
      var h := held + [es[0]];
      Held(if |Spell(h)| >= DISK_BUFFER then [] else h, es[1..])
  }

  lemma {:induction false} HeldSpells(d: Disk, held: seq<Entry>, es: seq<Entry>)
    requires d.buf == Spell(held)
    ensures PutAll(d, es).buf == Spell(Held(held, es))
    decreases |es|
  {
    if es == [] {
    } else {
      SpellSnoc(held, es[0]);
      var h := held + [es[0]];
      HeldSpells(Put(d, es[0]), if |Spell(h)| >= DISK_BUFFER then [] else h, es[1..]);
    }
  }

  /** Below the threshold nothing leaves the buffer. */
  lemma {:induction false} HeldWhenSmall(held: seq<Entry>, es: seq<Entry>)
    requires |Spell(held)| + |Spell(es)| < 1024
    ensures Held(held, es) == held + es
    decreases |es|
  {
    if es == [] {
      assert held + es == held;
    } else {
      var e, rest := es[0], es[1..];
      assert es == [e] + rest;
      SpellConcat([e], rest);
      SpellConcat(held, [e]);
      HeldWhenSmall(held + [e], rest);
      assert held + [e] + rest == held + es;
    }
  }

  // ---- accepting entries ----

  /** The entries that the append loop pushes. */
  function NewEntries(log: seq<Entry>, idx: nat, term: nat, cmds: seq<string>): seq<Entry>
    requires idx <= |log|
    decreases |cmds|
  {
    if cmds == [] then []
    else if idx < |log| && log[idx].term == term then NewEntries(log, idx + 1, term, cmds[1..])
    else [Entry(term, cmds[0])] + NewEntries(log[..idx] + [Entry(term, cmds[0])], idx + 1, term, cmds[1..])
  }

  /** The log is truncated exactly when a label clashes. */
  lemma TruncatesWhen(log: seq<Entry>, idx: nat, term: nat, cmds: seq<string>)
    requires idx <= |log|
    ensures Clashes(log, idx, term, |cmds|) <==> !(log <= Merge(log, idx, term, cmds))
  {
    var cut := MergeShape(log, idx, term, cmds);
    var r := Merge(log, idx, term, cmds);
    if cut < idx + |cmds| && cut < |log| {
      assert r[cut].term == term;
    } else if cut == |log| {
      assert log[..cut] == log;
    }
  }

  lemma {:induction false} PushesWhenClashing(log: seq<Entry>, idx: nat, term: nat, cmds: seq<string>)
    requires idx <= |log| && Clashes(log, idx, term, |cmds|)
    ensures NewEntries(log, idx, term, cmds) != []
    decreases |cmds|
  {
    if idx < |log| && log[idx].term == term {
      PushesWhenClashing(log, idx + 1, term, cmds[1..]);
    }
  }

  /** A disk in step with the log stays so when nothing is truncated. */
  lemma {:induction false} GrowthKeepsSync(d: Disk, log: seq<Entry>, idx: nat, term: nat, cmds: seq<string>)
    requires idx <= |log| && InSync(d, log) && !Clashes(log, idx, term, |cmds|)
    ensures InSync(PutAll(d, NewEntries(log, idx, term, cmds)), Merge(log, idx, term, cmds))
    decreases |cmds|
  {
    if cmds == [] {
    } else if idx < |log| {
      GrowthKeepsSync(d, log, idx + 1, term, cmds[1..]);
    } else {
      var e := Entry(term, cmds[0]);
      assert log[..idx] == log;
      PutKeepsSync(d, log, e);
      GrowthKeepsSync(Put(d, e), log + [e], idx + 1, term, cmds[1..]);
      var rest := NewEntries(log + [e], idx + 1, term, cmds[1..]);
      assert ([e] + rest)[1..] == rest;
    }
  }

  /** What a truncation leaves: the file spells the log, and the buffer is what it was. The two agree with the log
      exactly when the last of the new entries has filled the buffer; otherwise the entries still buffered are spelled
      a second time. */
  lemma LeftInBuffer(d: Disk, held: seq<Entry>, es: seq<Entry>, log: seq<Entry>)
    requires d.buf == Spell(held) && |log| > 0
    ensures var d' := Disk(Spell(log[1..]), PutAll(d, es).buf);
            && (InSync(d', log) <==> Held(held, es) == [])
            && d'.file + d'.buf == Spell(log[1..] + Held(held, es))
  {
    var d' := Disk(Spell(log[1..]), PutAll(d, es).buf);
    HeldSpells(d, held, es);
    SpellConcat(log[1..], Held(held, es));
    assert |d'.file + d'.buf| == |d'.file| + |d'.buf|;
  }

  /** What accepting the entries of a message does to the disk: the new ones are appended; after a truncation the file
      is then replaced by the lines of the whole log, and the buffer stays. */
  ghost function DiskAfter(d: Disk, log: seq<Entry>, idx: nat, term: nat, cmds: seq<string>): Disk
    requires 0 < idx <= |log|
  {
    var d' := PutAll(d, NewEntries(log, idx, term, cmds));
    if !Clashes(log, idx, term, |cmds|) then d'
    else
      MergeLengthAtLeast(log, idx, term, cmds);
      Disk(Spell(Merge(log, idx, term, cmds)[1..]), d'.buf)
  }

  /** A disk in step with the log stays so exactly when no label clashes, or the last of the new entries fills the
      buffer. */
  lemma InSyncAfter(d: Disk, held: seq<Entry>, log: seq<Entry>, idx: nat, term: nat, cmds: seq<string>)
    requires 0 < idx <= |log| && InSync(d, log) && d.buf == Spell(held)
    ensures InSync(DiskAfter(d, log, idx, term, cmds), Merge(log, idx, term, cmds)) <==>
              !Clashes(log, idx, term, |cmds|) || Held(held, NewEntries(log, idx, term, cmds)) == []
  {
    if Clashes(log, idx, term, |cmds|) {
      MergeLengthAtLeast(log, idx, term, cmds);
      LeftInBuffer(d, held, NewEntries(log, idx, term, cmds), Merge(log, idx, term, cmds));
    } else {
      GrowthKeepsSync(d, log, idx, term, cmds);
    }
  }

  /** So a truncation always puts disk and log out of step while the buffered lines and the new ones stay below the
      threshold: every one of them is then spelled twice. */
  lemma SmallTruncationDoubles(d: Disk, held: seq<Entry>, log: seq<Entry>, idx: nat, term: nat, cmds: seq<string>)
    requires 0 < idx <= |log| && d.buf == Spell(held) && Clashes(log, idx, term, |cmds|)
    requires |d.buf| + |Spell(NewEntries(log, idx, term, cmds))| < 1024
    ensures var d', log' := DiskAfter(d, log, idx, term, cmds), Merge(log, idx, term, cmds);
            && |log'| > 0 && !InSync(d', log')
            && d'.file + d'.buf == Spell(log'[1..] + (held + NewEntries(log, idx, term, cmds)))
  {
    var es := NewEntries(log, idx, term, cmds);
    HeldWhenSmall(held, es);
    PushesWhenClashing(log, idx, term, cmds);
    MergeLengthAtLeast(log, idx, term, cmds);
    LeftInBuffer(d, held, es, Merge(log, idx, term, cmds));
  }

  /** One such message: the log holds one entry, all of it in the file, and an entry of another term takes its place.
      A flush and reload give that one twice. */
  lemma TruncationExample(d: Disk, log: seq<Entry>, e: Entry)
    requires |log| == 2 && d == Disk(Spell(log[1..]), "") && log[1].term != e.term
    requires Storable(e) && |Line(e)| < DISK_BUFFER
    ensures InSync(d, log)
    ensures var d' := DiskAfter(d, log, 1, e.term, [e.command]);
            d'.file + d'.buf == Spell([e, e])
    ensures Load(Spell([e, e]), []) == Some([e, e])
  {
    LoadPair(e, e);
    assert Clashes(log, 1, e.term, 1) by { assert log[1].term != e.term; }
    ReplaceOne(log, e);
    SpellSnoc([], e);
    assert [] + [e] == [e];
    SmallTruncationDoubles(d, [], log, 1, e.term, [e.command]);
    assert [log[0], e][1..] + ([] + [e]) == [e, e];
  }

  lemma LoadPair(a: Entry, b: Entry)
    requires Storable(a) && Storable(b)
    ensures Load(Spell([a, b]), []) == Some([a, b])
  {
    LoadExactly([a, b]);
  }

  lemma ReplaceOne(log: seq<Entry>, e: Entry)
    requires |log| == 2 && log[1].term != e.term
    ensures NewEntries(log, 1, e.term, [e.command]) == [e] && Merge(log, 1, e.term, [e.command]) == [log[0], e]
  {
  }
}
