/**
  The few string operations the shell parses lines with.  Each `char` stands for one ASCII byte.
 */
module Text {

  predicate IsSpace(c: char) {
    c == ' ' || '\t' <= c <= '\r'
  }

  function TrimLeft(s: string): string {
    if s != "" && IsSpace(s[0]) then TrimLeft(s[1..]) else s
  }

  function TrimRight(s: string): string {
    if s != "" && IsSpace(s[|s| - 1]) then TrimRight(s[..|s| - 1]) else s
  }

  function Trim(s: string): string {
    TrimRight(TrimLeft(s))
  }

  predicate Blank(s: string) {
    TrimLeft(s) == ""
  }

  /** No white space at either end. */
  predicate Trimmed(s: string) {
    s != "" ==> !IsSpace(s[0]) && !IsSpace(s[|s| - 1])
  }

  /** Everything before the first space character. */
  function Head(s: string): string {
    if s == "" || s[0] == ' ' then "" else [s[0]] + Head(s[1..])
  }

  /** Everything after the first space character. */
  function Tail(s: string): string {
    if s == "" then "" else if s[0] == ' ' then s[1..] else Tail(s[1..])
  }

  predicate EndsWith(s: string, t: string) {
    |t| <= |s| && s[|s| - |t|..] == t
  }

  lemma SuffixOfRest(s: string, t: string)
    requires s != "" && EndsWith(s[1..], t)
    ensures EndsWith(s, t)
  {
    assert s[|s| - |t|..] == s[1..][|s| - 1 - |t|..];
  }

  lemma {:induction false} TrimLeftOfConcat(s: string, t: string)
    ensures !Blank(s) ==> TrimLeft(s + t) == TrimLeft(s) + t
    ensures Blank(s) ==> TrimLeft(s + t) == TrimLeft(t)
  {
    if s == "" {
      assert s + t == t;
    } else if IsSpace(s[0]) {
      TrimLeftOfConcat(s[1..], t);
      assert (s + t)[1..] == s[1..] + t;
    }
  }

  lemma {:induction false} TrimLeftIsSuffix(s: string)
    ensures EndsWith(s, TrimLeft(s))
    ensures TrimLeft(s) != "" ==> !IsSpace(TrimLeft(s)[0])
  {
    if s != "" && IsSpace(s[0]) {
      TrimLeftIsSuffix(s[1..]);
      SuffixOfRest(s, TrimLeft(s[1..]));
    }
  }

  lemma {:induction false} TrimRightIsPrefix(s: string)
    ensures TrimRight(s) <= s
    ensures TrimRight(s) != "" ==> !IsSpace(TrimRight(s)[|TrimRight(s)| - 1])
    ensures s != "" && !IsSpace(s[0]) ==> TrimRight(s) != ""
  {
    if s != "" && IsSpace(s[|s| - 1]) {
      TrimRightIsPrefix(s[..|s| - 1]);
    }
  }

  lemma {:induction false} TrimRightExactly(s: string, n: nat)
    requires n <= |s| && (n > 0 ==> !IsSpace(s[n - 1]))
    requires forall i | n <= i < |s| :: IsSpace(s[i])
    ensures TrimRight(s) == s[..n]
  {
    if |s| > n {
      TrimRightExactly(s[..|s| - 1], n);
      assert s[..|s| - 1][..n] == s[..n];
    } else {
      assert s[..n] == s;
    }
  }

  lemma {:induction false} TrimRightDropsSpaces(s: string)
    ensures forall i | |TrimRight(s)| <= i < |s| :: IsSpace(s[i])
  {
    if s != "" && IsSpace(s[|s| - 1]) {
      TrimRightDropsSpaces(s[..|s| - 1]);
    }
  }

  /** The ASCII characters that count as white space. */
  const WHITE: seq<char> := [' ', '\t', '\n', 11 as char, 12 as char, '\r']

  lemma SpaceIsWhite(c: char)
    ensures IsSpace(c) <==> c in WHITE
  {
    assert '\t' as int == 9 && '\n' as int == 10 && '\r' as int == 13;
  }

  lemma {:induction false} TrimLeftSplits(s: string) returns (before: string)
    ensures s == before + TrimLeft(s) && forall c | c in before :: c in WHITE
    ensures TrimLeft(s) != "" ==> TrimLeft(s)[0] !in WHITE
  {
    before := [];
    if s != "" {
      SpaceIsWhite(s[0]);
      if IsSpace(s[0]) {
        before := TrimLeftSplits(s[1..]);
        before := [s[0]] + before;
      }
    }
  }

  lemma {:induction false} TrimRightSplits(s: string) returns (after: string)
    ensures s == TrimRight(s) + after && forall c | c in after :: c in WHITE
    ensures TrimRight(s) != "" ==> TrimRight(s)[|TrimRight(s)| - 1] !in WHITE
  {
    after := [];
    if s != "" {
      SpaceIsWhite(s[|s| - 1]);
      if IsSpace(s[|s| - 1]) {
        after := TrimRightSplits(s[..|s| - 1]);
        after := after + [s[|s| - 1]];
      }
    }
  }

  /** Trimming takes white space off both ends and nothing else, and takes off all of it. */
  lemma TrimTakesWhiteEnds(s: string) returns (before: string, after: string)
    ensures s == before + Trim(s) + after && forall c | c in before + after :: c in WHITE
    ensures Trim(s) != "" ==> Trim(s)[0] !in WHITE && Trim(s)[|Trim(s)| - 1] !in WHITE
  {
    before := TrimLeftSplits(s);
    after := TrimRightSplits(TrimLeft(s));
    EndsCompose(s, before, TrimLeft(s), Trim(s), after);
  }

  lemma EndsCompose(s: string, before: string, left: string, middle: string, after: string)
    requires s == before + left && left == middle + after
    ensures s == before + middle + after && (middle != "" ==> middle[0] == left[0])
  {
  }

  lemma FirstOfMiddle(before: string, middle: string, after: string)
    ensures middle != "" ==> middle[0] in before + middle + after
  {
  }

  lemma LastOfEnding(start: string, after: string)
    ensures after != "" ==> (start + after)[|start + after| - 1] in after
  {
  }

  lemma NothingToTrim(s: string)
    requires s != "" && !IsSpace(s[|s| - 1])
    ensures TrimRight(s) == s
  {
  }

  lemma TrimTrims(s: string)
    ensures Trimmed(Trim(s)) && (Trim(s) == "" <==> Blank(s))
  {
    TrimLeftIsSuffix(s);
    TrimRightIsPrefix(TrimLeft(s));
  }

  lemma TrimOfTrimmed(s: string)
    requires Trimmed(s)
    ensures Trim(s) == s
  {
  }

  lemma {:induction false} HeadOfConcat(s: string, t: string)
    ensures Head(s + [' '] + t) == Head(s)
    ensures Tail(s + [' '] + t) == if ' ' in s then Tail(s) + [' '] + t else t
  {
    if s == "" {
      assert s + [' '] + t == [' '] + t;
    } else if s[0] == ' ' {
      assert (s + [' '] + t)[1..] == s[1..] + [' '] + t;
    } else {
      HeadOfConcat(s[1..], t);
      assert (s + [' '] + t)[1..] == s[1..] + [' '] + t;
      assert ' ' in s <==> ' ' in s[1..];
    }
  }

  lemma {:induction false} TailIsSuffix(s: string)
    ensures EndsWith(s, Tail(s)) && (s != "" ==> |Tail(s)| < |s|)
  {
    if s != "" && s[0] != ' ' {
      TailIsSuffix(s[1..]);
      SuffixOfRest(s, Tail(s[1..]));
    }
  }

  lemma {:induction false} HeadHasNoSpace(s: string)
    ensures ' ' !in Head(s)
  {
    if s != "" && s[0] != ' ' {
      HeadHasNoSpace(s[1..]);
    }
  }

  /** Trimming never eats into a trimmed, non-empty ending. */
  lemma TrimKeepsEnding(s: string, t: string)
    requires Trimmed(t) && t != ""
    ensures EndsWith(Trim(s + t), t)
  {
    TrimLeftOfConcat(s, t);
    var u := TrimLeft(s + t);
    assert EndsWith(u, t);
    assert u[|u| - 1] == t[|t| - 1];
  }

  lemma {:induction false} HeadAndTail(s: string)
    requires ' ' in s
    ensures s == Head(s) + [' '] + Tail(s)
  {
    if s[0] != ' ' {
      HeadAndTail(s[1..]);
      assert s == [s[0]] + s[1..];
    }
  }

  lemma NoSpaceInside(w: string, prefix: string, i: nat)
    requires ' ' !in w && i < |prefix| && prefix[i] == ' '
    ensures !(prefix <= w)
  {
  }

  /** A string starts with a word and a space iff that word is its first one and more follows. */
  lemma HeadDecides(s: string, w: string)
    requires ' ' !in w
    ensures Head(s) == w <==> s == w || w + [' '] <= s
  {
    if ' ' in s {
      HeadAndTail(s);
      if w + [' '] <= s {
        assert s == w + [' '] + s[|w| + 1..];
        HeadOfConcat(w, s[|w| + 1..]);
        OneWord(w);
      }
    } else {
      OneWord(s);
      NoSpaceInside(s, w + [' '], |w|);
    }
  }

  lemma {:induction false} OneWord(w: string)
    requires ' ' !in w
    ensures Head(w) == w && Tail(w) == ""
  {
    if w != "" {
      assert forall c :: c in w[1..] ==> c in w;
      OneWord(w[1..]);
    }
  }

  lemma EndsWithItself(s: string)
    ensures EndsWith(s, s)
  {
  }

  lemma EndingsCompose(u: string, b: string, a: string)
    requires EndsWith(u, b) && EndsWith(b, a)
    ensures EndsWith(u, a)
  {
    assert u[|u| - |a|..] == u[|u| - |b|..][|b| - |a|..];
  }
}
