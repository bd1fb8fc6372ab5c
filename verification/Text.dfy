/** White space and words, as std::stoull skips the one and a string stream extracts the others. */
module Text {
  /** isspace. */
  predicate IsSpace(c: char) {
    c == ' ' || c == '\t' || c == '\n' || c as int == 11 || c as int == 12 || c == '\r'
  }

  function SkipSpace(s: string): string {
    if s == [] || !IsSpace(s[0]) then s else SkipSpace(s[1..])
  }

  /** The six characters of white space. */
  lemma SpaceCodes(c: char)
    ensures IsSpace(c) <==> c as int in {9, 10, 11, 12, 13, 32}
  {
    assert c as int == 9 ==> c == '\t';
    assert c as int == 10 ==> c == '\n';
    assert c as int == 13 ==> c == '\r';
    assert c as int == 32 ==> c == ' ';
  }

  predicate Blank(s: string) {
    forall i :: 0 <= i < |s| ==> IsSpace(s[i])
  }

  /** At least one character, and no white space. */
  predicate Word(s: string) {
    s != [] && forall i :: 0 <= i < |s| ==> !IsSpace(s[i])
  }

  /** Where the first word of a string that starts with one ends. */
  function WordEnd(s: string): (n: nat)
    ensures n <= |s| && (forall i :: 0 <= i < n ==> !IsSpace(s[i])) && (n < |s| ==> IsSpace(s[n]))
  {
    if s == [] || IsSpace(s[0]) then 0 else 1 + WordEnd(s[1..])
  }

  /** The words that extraction gives, one after the other. */
  function Tokens(s: string): seq<string>
    decreases |s|
  {
    if s == [] then []
    else if IsSpace(s[0]) then Tokens(s[1..])
    else [s[..WordEnd(s)]] + Tokens(s[WordEnd(s)..])
  }

  lemma {:induction false} TokensSkip(s: string)
    ensures Tokens(s) == Tokens(SkipSpace(s)) && |SkipSpace(s)| <= |s|
    ensures SkipSpace(s) != [] ==> !IsSpace(SkipSpace(s)[0])
  {
    if s != [] && IsSpace(s[0]) {
      TokensSkip(s[1..]);
    }
  }

  lemma {:induction false} TokensAreWords(s: string, k: nat)
    requires k < |Tokens(s)|
    ensures Word(Tokens(s)[k])
    decreases |s|
  {
    if IsSpace(s[0]) {
      TokensAreWords(s[1..], k);
    } else if k > 0 {
      TokensAreWords(s[WordEnd(s)..], k - 1);
    }
  }

  lemma {:induction false} WordEndJoin(a: string, c: char, b: string)
    requires IsSpace(c)
    ensures WordEnd(a + [c] + b) == WordEnd(a)
  {
    var s := a + [c] + b;
    if a != [] && !IsSpace(a[0]) {
      assert s[1..] == a[1..] + [c] + b;
      WordEndJoin(a[1..], c, b);
    }
  }

  /** Text on both sides of a blank is cut up separately. */
  lemma {:induction false} TokensJoin(a: string, c: char, b: string)
    requires IsSpace(c)
    ensures Tokens(a + [c] + b) == Tokens(a) + Tokens(b)
    decreases |a|
  {
    var s := a + [c] + b;
    if a == [] {
      assert s[0] == c && s[1..] == b;
    } else if IsSpace(a[0]) {
      assert s[1..] == a[1..] + [c] + b;
      TokensJoin(a[1..], c, b);
    } else {
      var n := WordEnd(a);
      WordEndJoin(a, c, b);
      assert s[..n] == a[..n] && s[n..] == a[n..] + [c] + b;
      TokensJoin(a[n..], c, b);
      assert [a[..n]] + (Tokens(a[n..]) + Tokens(b)) == [a[..n]] + Tokens(a[n..]) + Tokens(b);
    }
  }

  /** A word is its own only token, and nothing else is. */
  lemma OneToken(s: string)
    ensures Tokens(s) == [s] <==> Word(s)
  {
    if Word(s) {
      assert WordEnd(s) == |s| && s[..|s|] == s && s[|s|..] == [];
    }
    if Tokens(s) == [s] {
      TokensAreWords(s, 0);
    }
  }

  /** Blank text, and only that, has no tokens. */
  lemma {:induction false} NoToken(s: string)
    ensures Tokens(s) == [] <==> Blank(s)
  {
    if s != [] {
      NoToken(s[1..]);
      if IsSpace(s[0]) {
        assert Blank(s) <==> Blank(s[1..]) by {
          assert forall i :: 0 < i < |s| ==> s[i] == s[1..][i - 1];
        }
      }
    }
  }
}
