/** The string automaton: built by border search, run over a text. */
module Automaton {
  import opened Collections

  /** The first `b` letters of the pattern are the last `b` letters of the text. */
  ghost predicate Suffix(pat: seq<nat>, text: seq<nat>, b: nat)
  {
    b <= |pat| && b <= |text| && pat[..b] == text[|text| - b..]
  }

  /** The longest beginning of the pattern that ends the text. */
  ghost predicate Longest(pat: seq<nat>, text: seq<nat>, b: nat)
  {
    Suffix(pat, text, b) && forall c | b < c <= |pat| :: !Suffix(pat, text, c)
  }

  /** From the first `st` letters, `b` of which could also be the last, the letter leads on. */
  ghost predicate Extends(pat: seq<nat>, st: nat, ch: nat, b: nat)
  {
    b < st <= |pat| && pat[..b] == pat[st - b..st] && pat[b] == ch
  }

  /** The transition on `ch` of the state that has seen the first `st` letters: the next state, minus the
      pattern length when that is the whole pattern, or the longest border that the letter extends. */
  ghost predicate Right(pat: seq<nat>, st: nat, ch: nat, r: int)
  {
    st <= |pat| &&
    if st < |pat| && pat[st] == ch then r == if st + 1 < |pat| then st + 1 else -|pat|
    else
      && r >= 0 && (r > 0 ==> Extends(pat, st, ch, r - 1))
      && (forall b | r <= b < st :: !Extends(pat, st, ch, b))
  }

  lemma SuffixStep(pat: seq<nat>, text: seq<nat>, ch: nat, c: nat)
    ensures Suffix(pat, text + [ch], c + 1) <==> c < |pat| && Suffix(pat, text, c) && pat[c] == ch
  {
    var t := text + [ch];
    if c + 1 <= |t| && c < |pat| {
      assert t[|t| - (c + 1)..] == text[|text| - c..] + [ch];
      assert pat[..c + 1] == pat[..c] + [pat[c]];
    }
  }

  /** A shorter beginning that ends the text is a border of a longer one that does. */
  lemma SuffixBorder(pat: seq<nat>, text: seq<nat>, st: nat, b: nat)
    requires Suffix(pat, text, st) && b <= st
    ensures Suffix(pat, text, b) <==> pat[..b] == pat[st - b..st]
  {
    assert text[|text| - b..] == text[|text| - st..][st - b..];
    assert pat[st - b..st] == pat[..st][st - b..];
  }

  /** A right transition keeps the state the longest beginning that ends the text. */
  lemma StepKeeps(pat: seq<nat>, text: seq<nat>, ch: nat, st: nat, r: int)
    requires Longest(pat, text, st) && st < |pat| && Right(pat, st, ch, r)
    ensures r >= 0 ==> Longest(pat, text + [ch], r) && r < |pat|
    ensures r < 0 ==> r == -|pat| && Suffix(pat, text + [ch], |pat|)
  {
    SuffixStep(pat, text, ch, st);
    if pat[st] == ch {
      forall c | st + 1 < c <= |pat| ensures !Suffix(pat, text + [ch], c) {
        SuffixStep(pat, text, ch, c - 1);
      }
    } else {
      if r > 0 {
        SuffixBorder(pat, text, st, r - 1);
        SuffixStep(pat, text, ch, r - 1);
      }
      forall c | r < c <= |pat| ensures !Suffix(pat, text + [ch], c) {
        SuffixStep(pat, text, ch, c - 1);
        if Suffix(pat, text, c - 1) && c - 1 < st {
          SuffixBorder(pat, text, st, c - 1);
          assert !Extends(pat, st, ch, c - 1);
        }
      }
    }
  }

  /** The pattern occurs at a position of the text. */
  ghost predicate Occurs(pat: seq<nat>, text: seq<nat>, at: nat)
  {
    at + |pat| <= |text| && text[at..at + |pat|] == pat
  }

  /** The pattern in the numbering of the alphabet.  Characters that no indexed text has are all numbered 0. */
  ghost predicate Coded(patuc: seq<nat>, alnummap: seq<nat>, pat: seq<nat>, maxchars: nat)
  {
    && |pat| == |patuc|
    && (forall i | 0 <= i < |patuc| :: patuc[i] < |alnummap| && pat[i] == alnummap[patuc[i]] && pat[i] < maxchars)
    && (forall i, j | 0 <= i < |patuc| && 0 <= j < |patuc| && pat[i] == pat[j] > 0 :: patuc[i] == patuc[j])
  }

  /** The first `st` letters of the pattern are letters of the alphabet. */
  ghost predicate Known(pat: seq<nat>, st: nat)
  {
    st <= |pat| && forall i | 0 <= i < st :: pat[i] > 0
  }

  lemma SlicesAgree(patuc: seq<nat>, alnummap: seq<nat>, pat: seq<nat>, maxchars: nat, i: nat, st: nat)
    requires Coded(patuc, alnummap, pat, maxchars) && i <= st <= |patuc| && Known(pat, st)
    ensures patuc[..st - i] == patuc[i..st] <==> pat[..st - i] == pat[i..st]
  {
    if patuc[..st - i] == patuc[i..st] {
      forall k | 0 <= k < st - i ensures pat[..st - i][k] == pat[i..st][k] {
        assert patuc[..st - i][k] == patuc[i..st][k];
      }
    }
    if pat[..st - i] == pat[i..st] {
      forall k | 0 <= k < st - i ensures patuc[..st - i][k] == patuc[i..st][k] {
        assert pat[..st - i][k] == pat[i..st][k];
      }
    }
  }

  lemma Arrived(pat: seq<nat>, text: seq<nat>, pos: nat, st: nat, next: int)
    requires 0 < pos <= |text| && st < |pat| && Longest(pat, text[..pos - 1], st)
    requires Right(pat, st, text[pos - 1], next) && next < 0
    ensures next == -|pat| && |pat| <= pos && Occurs(pat, text, pos - |pat|)
  {
    assert text[..pos] == text[..pos - 1] + [text[pos - 1]];
    StepKeeps(pat, text[..pos - 1], text[pos - 1], st, next);
    assert text[..pos][pos - |pat|..] == text[pos - |pat|..pos];
  }

  /** The pattern has not just ended when the whole of it does not end the text read. */
  lemma EndsHere(pat: seq<nat>, text: seq<nat>, pos: nat)
    requires pos <= |text| && |pat| > 0 && !Suffix(pat, text[..pos], |pat|)
    ensures forall k | 0 <= k && k + |pat| == pos :: !Occurs(pat, text, k)
  {
    forall k | 0 <= k && k + |pat| == pos ensures !Occurs(pat, text, k) {
      assert text[..pos][pos - |pat|..] == text[k..k + |pat|];
    }
  }

  lemma Moved(pat: seq<nat>, text: seq<nat>, pos: nat, st: nat, next: nat)
    requires 0 < pos <= |text| && st < |pat| && Longest(pat, text[..pos - 1], st)
    requires Right(pat, st, text[pos - 1], next)
    ensures next < |pat| && Longest(pat, text[..pos], next)
    ensures forall k | 0 <= k && k + |pat| == pos :: !Occurs(pat, text, k)
  {
    assert text[..pos] == text[..pos - 1] + [text[pos - 1]];
    StepKeeps(pat, text[..pos - 1], text[pos - 1], st, next);
    EndsHere(pat, text, pos);
  }

  /** A letter of the alphabet leads from known letters to known letters. */
  lemma KnownStep(pat: seq<nat>, st: nat, ch: nat, r: nat)
    requires Known(pat, st) && ch > 0 && Right(pat, st, ch, r)
    ensures Known(pat, r)
  {
  }

  class Automaton {
    const states: nat
    const d: nat
    const nextst: array2<int>
    const final: array<nat>

    ghost predicate Shape()
      reads this
    {
      nextst.Length0 == states && nextst.Length1 == d && final.Length == states && states > 1
    }

    /** The automaton recognises the pattern; letter 0, the end of the text, stops it.  Nothing is asked of the
        states behind a character that no text has, which are never reached. */
    ghost predicate Recognises(pat: seq<nat>)
      reads this, nextst, final
    {
      && Shape() && states == |pat| + 1 && final[|pat|] == |pat|
      && (forall st, ch {:trigger nextst[st, ch]} | 0 <= st < |pat| && Known(pat, st) && 0 < ch < d ::
            Right(pat, st, ch, nextst[st, ch]))
      && (forall st {:trigger nextst[st, 0]} | 0 <= st < |pat| && d > 0 :: nextst[st, 0] == -1)
    }

    constructor (states: nat, d: nat)
      requires states > 1
      ensures this.states == states && this.d == d && Shape() && fresh(nextst) && fresh(final)
      ensures forall st, ch | 0 <= st < states && 0 <= ch < d :: nextst[st, ch] == 0
      ensures forall st | 0 <= st < states :: final[st] == 0
    {
      this.states, this.d := states, d;
      nextst := new int[states, d]((i, j) => 0);
      final := new nat[states](i => 0);
    }

    /** One more than the longest border of the first `st` letters that the letter extends, or 0. */
    method LongestBorder(patuc: seq<nat>, alnummap: seq<nat>, st: nat, ch: nat, ghost pat: seq<nat>) returns (r: nat)
      requires Coded(patuc, alnummap, pat, d) && 0 < st <= |pat|
      ensures r <= st
      ensures Known(pat, st) ==>
                (r > 0 ==> Extends(pat, st, ch, r - 1)) && forall b | r <= b < st :: !Extends(pat, st, ch, b)
    {
      var i := 1;
      while i <= st
        invariant 1 <= i <= st + 1
        invariant Known(pat, st) ==> forall b | st - i < b < st :: !Extends(pat, st, ch, b)
      {
        if Known(pat, st) { SlicesAgree(patuc, alnummap, pat, d, i, st); }
        if (st == i || patuc[..st - i] == patuc[i..st]) && ch == alnummap[patuc[st - i]] {
          assert Known(pat, st) ==> Extends(pat, st, ch, st - i);
          return st - i + 1;
        }
        assert Known(pat, st) ==> !Extends(pat, st, ch, st - i);
        i := i + 1;
      }
      return 0;
    }

    /** The transitions of one state but for the letter that leads on. */
    method BackwardState(patuc: seq<nat>, alnummap: seq<nat>, st: nat, ghost pat: seq<nat>)
      requires Shape() && Coded(patuc, alnummap, pat, d) && states == |pat| + 1 && 0 < st <= |pat|
      requires forall ch | 0 <= ch < d :: nextst[st, ch] ==
                 if st < |pat| && pat[st] == ch then (if st + 1 < |pat| then st + 1 else -|pat|) else 0
      modifies nextst
      ensures forall s, ch | 0 <= s < states && 0 <= ch < d && s != st :: nextst[s, ch] == old(nextst[s, ch])
      ensures Known(pat, st) ==> forall ch | 0 < ch < d :: Right(pat, st, ch, nextst[st, ch])
    {
      var back: int := st - 1;
      while back >= 0
        invariant -1 <= back < st
        invariant forall s, ch | 0 <= s < states && 0 <= ch < d && s != st :: nextst[s, ch] == old(nextst[s, ch])
        invariant Known(pat, st) ==> forall ch | 0 < ch < d && nextst[st, ch] != 0 :: Right(pat, st, ch, nextst[st, ch])
        invariant Known(pat, st) ==> forall j | back < j < st :: Right(pat, st, pat[j], nextst[st, pat[j]])
        invariant forall ch | 0 <= ch < d && st < |pat| && pat[st] == ch :: nextst[st, ch] != 0
      {
        var ch := alnummap[patuc[back]];
        if nextst[st, ch] == 0 {
          var b := LongestBorder(patuc, alnummap, st, ch, pat);
          nextst[st, ch] := b;
        }
        back := back - 1;
      }
      forall ch | 0 < ch < d && nextst[st, ch] == 0 && Known(pat, st) ensures Right(pat, st, ch, 0) {
        forall b | 0 <= b < st ensures !Extends(pat, st, ch, b) {
          if pat[b] == ch { assert Right(pat, st, pat[b], nextst[st, pat[b]]); }
        }
      }
    }

    /** `searchautom` on a text ended by 0: where the leftmost occurrence begins. */
    method Search(text: seq<nat>, ghost pat: seq<nat>) returns (at: Option<nat>)
      requires Recognises(pat) && |text| > 0 && text[|text| - 1] == 0
      requires forall i | 0 <= i < |text| - 1 :: 0 < text[i] < d
      ensures var word := text[..|text| - 1];
              && (at.Some? ==> Occurs(pat, word, at.value) && forall k | 0 <= k < at.value :: !Occurs(pat, word, k))
              && (at.None? ==> forall k: nat :: !Occurs(pat, word, k))
    {
      ghost var word := text[..|text| - 1];
      if text[0] == 0 {
        return None;
      }
      var st, pos := 0, 0;
      while true
        invariant 0 <= pos < |text| && st < |pat| && Longest(pat, word[..pos], st) && Known(pat, st)
        invariant forall k | 0 <= k && k + |pat| <= pos :: !Occurs(pat, word, k)
        decreases |text| - pos
      {
        var next := nextst[st, text[pos]];
        pos := pos + 1;
        if next < 0 {
          if text[pos - 1] == 0 {
            return None;
          }
          Arrived(pat, word, pos, st, next);
          return Some(pos - final[-next]);
        }
        Moved(pat, word, pos, st, next);
        KnownStep(pat, st, text[pos - 1], next);
        st := next;
      }
    }
  }

  /** `stringautom`, then column 0 set to -1 as its callers do. */
  method StringAutom(patuc: seq<nat>, alnummap: seq<nat>, maxchars: nat, ghost pat: seq<nat>) returns (a: Automaton)
    requires |patuc| > 0 && Coded(patuc, alnummap, pat, maxchars)
    ensures fresh(a) && a.Recognises(pat) && a.d == maxchars
  {
    var m := |patuc|;
    a := new Automaton(m + 1, maxchars);
    var st := 0;
    while st < a.states
      invariant 0 <= st <= a.states && fresh(a.nextst)
      invariant forall s, ch | 0 <= s <= m && 0 <= ch < maxchars ::
                  a.nextst[s, ch] == if s < st && s < m - 1 && pat[s] == ch then s + 1 else 0
    {
      if st < a.states - 2 {
        a.nextst[st, alnummap[patuc[st]]] := st + 1;
      }
      st := st + 1;
    }
    a.nextst[m - 1, alnummap[patuc[m - 1]]] := -m;
    a.final[m] := m;
    st := 1;
    while st < a.states
      invariant 1 <= st <= a.states && fresh(a.nextst) && a.final[m] == m
      invariant forall s, ch | 0 <= s < st && s <= m && Known(pat, s) && 0 < ch < maxchars ::
                  Right(pat, s, ch, a.nextst[s, ch])
      invariant forall s, ch | st <= s <= m && 0 <= ch < maxchars :: a.nextst[s, ch] ==
                  if s < m && pat[s] == ch then (if s + 1 < m then s + 1 else -m) else 0
    {
      a.BackwardState(patuc, alnummap, st, pat);
      st := st + 1;
    }
    forall s | 0 <= s < a.states {
      a.nextst[s, 0] := -1;
    }
  }
}
