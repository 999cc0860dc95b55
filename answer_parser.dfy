/**
  `extract_choice` (code/build_training_data_from_llm.py, lines 16-44): read
  which team a free-text answer picks, by a case-insensitive search for the
  phrases "team a" and "team b"; when both occur the earlier one wins.
 */
module AnswerParser {
  import opened Wrappers
  import opened Json

  datatype Choice = A | B

  const PhraseA: string := "team a"
  const PhraseB: string := "team b"

  /** `str.lower` on one character. Only the ASCII letters are folded here. */
  function LowerChar(c: char): char
  {
    if 'A' <= c <= 'Z' then (c as int - 'A' as int + 'a' as int) as char else c
  }

  function Lower(s: string): (t: string)
    ensures |t| == |s|
    ensures forall i :: 0 <= i < |s| ==> t[i] == LowerChar(s[i])
  {
    seq(|s|, i requires 0 <= i < |s| => LowerChar(s[i]))
  }

  /** Lower-casing twice is lower-casing once. */
  lemma LowerIdempotent(s: string)
    ensures Lower(Lower(s)) == Lower(s)
  {
    forall i | 0 <= i < |s|
      ensures Lower(Lower(s))[i] == Lower(s)[i]
    {
      var c := s[i];
      if 'A' <= c <= 'Z' {
        assert 'a' <= LowerChar(c) <= 'z';
      }
    }
  }

  /** Phrase `p` occurs in `t` starting at position `i`. */
  predicate OccursAt(t: string, p: string, i: int)
  {
    0 <= i && i + |p| <= |t| && t[i..i + |p|] == p
  }

  /** The first position at or after `from` where `p` occurs, if any. */
  function IndexFrom(t: string, p: string, from: nat): (r: Option<nat>)
    decreases |t| - from
    ensures r.Some? ==> from <= r.value && OccursAt(t, p, r.value)
    ensures r.Some? ==> forall j :: from <= j < r.value ==> !OccursAt(t, p, j)
    ensures r.None? ==> forall j :: from <= j ==> !OccursAt(t, p, j)
  {
    if from + |p| > |t| then None
    else if t[from..from + |p|] == p then Some(from)
    else IndexFrom(t, p, from + 1)
  }

  /** `t.index(p)` when `p in t`, and `None` when it is not. */
  function IndexOf(t: string, p: string): (r: Option<nat>)
    ensures r.Some? ==> OccursAt(t, p, r.value) && forall j :: 0 <= j < r.value ==> !OccursAt(t, p, j)
    ensures r.None? <==> forall j :: !OccursAt(t, p, j)
  {
    IndexFrom(t, p, 0)
  }

  /** `extract_choice`: `None` for anything that is not a string; otherwise the
      phrase present, or the earlier of the two when both are present. */
  function ExtractChoice(answer: JsonValue): (r: Option<Choice>)
    ensures r.Some? ==> answer.JString?
  {
    match answer
    case JString(s) =>
      var t := Lower(s);
      var indexA := IndexOf(t, PhraseA);
      var indexB := IndexOf(t, PhraseB);
      if indexA.Some? && indexB.None? then Some(A)
      else if indexB.Some? && indexA.None? then Some(B)
      else if indexA.Some? && indexB.Some? then (if indexA.value < indexB.value then Some(A) else Some(B))
      else None
    case _ => None
  }

  /** "team a" and "team b" can never start at the same position, so the
      comparison of first positions always has a winner. */
  lemma PhrasesNeverStartTogether(t: string, i: int)
    ensures !(OccursAt(t, PhraseA, i) && OccursAt(t, PhraseB, i))
  {
    if OccursAt(t, PhraseA, i) {
      assert t[i..i + 6][5] == 'a' != PhraseB[5];
    }
  }

  /** The answer picks A exactly when, in the lower-cased text, "team a"
      occurs at some position before which (and at which) "team b" does not
      occur. */
  lemma ExtractChoiceIsA(s: string)
    ensures ExtractChoice(JString(s)) == Some(A) <==>
              exists i :: OccursAt(Lower(s), PhraseA, i) && forall j :: 0 <= j <= i ==> !OccursAt(Lower(s), PhraseB, j)
  {
    var t := Lower(s);
    var indexA := IndexOf(t, PhraseA);
    var indexB := IndexOf(t, PhraseB);
    if ExtractChoice(JString(s)) == Some(A) {
      var i := indexA.value;
      forall j | 0 <= j <= i
        ensures !OccursAt(t, PhraseB, j)
      {
        if j == i {
          PhrasesNeverStartTogether(t, i);
        }
      }
    }
    if exists i :: OccursAt(t, PhraseA, i) && forall j :: 0 <= j <= i ==> !OccursAt(t, PhraseB, j) {
      var i :| OccursAt(t, PhraseA, i) && forall j :: 0 <= j <= i ==> !OccursAt(t, PhraseB, j);
      assert indexA.Some? && indexA.value <= i;
      if indexB.Some? {
        assert !(indexB.value <= i);
      }
    }
  }

  /** Symmetrically for B. */
  lemma ExtractChoiceIsB(s: string)
    ensures ExtractChoice(JString(s)) == Some(B) <==>
              exists i :: OccursAt(Lower(s), PhraseB, i) && forall j :: 0 <= j <= i ==> !OccursAt(Lower(s), PhraseA, j)
  {
    var t := Lower(s);
    var indexA := IndexOf(t, PhraseA);
    var indexB := IndexOf(t, PhraseB);
    if ExtractChoice(JString(s)) == Some(B) {
      var i := indexB.value;
      if indexA.Some? {
        PhrasesNeverStartTogether(t, indexA.value);
      }
      forall j | 0 <= j <= i
        ensures !OccursAt(t, PhraseA, j)
      {
        if j == i {
          PhrasesNeverStartTogether(t, i);
        }
      }
    }
    if exists i :: OccursAt(t, PhraseB, i) && forall j :: 0 <= j <= i ==> !OccursAt(t, PhraseA, j) {
      var i :| OccursAt(t, PhraseB, i) && forall j :: 0 <= j <= i ==> !OccursAt(t, PhraseA, j);
      assert indexB.Some? && indexB.value <= i;
      if indexA.Some? {
        assert !(indexA.value <= i);
      }
    }
  }

  /** No choice exactly when the value is not a string or neither phrase occurs. */
  lemma ExtractChoiceIsNone(answer: JsonValue)
    ensures ExtractChoice(answer) == None <==>
              !answer.JString? || forall j :: !OccursAt(Lower(answer.s), PhraseA, j) && !OccursAt(Lower(answer.s), PhraseB, j)
  {
  }

  /** The search is case-insensitive: the answer and its lower-cased form
      (and so any two spellings that differ only in ASCII case) give the same choice. */
  lemma ExtractChoiceIgnoresCase(s: string, u: string)
    requires Lower(s) == Lower(u)
    ensures ExtractChoice(JString(s)) == ExtractChoice(JString(u))
    ensures ExtractChoice(JString(Lower(s))) == ExtractChoice(JString(s))
  {
    LowerIdempotent(s);
  }

  // Worked answers. A phrase is absent when one of its letters is.

  lemma NoOccurrenceWithout(t: string, p: string, c: char)
    requires c in p
    requires forall i :: 0 <= i < |t| ==> t[i] != c
    ensures forall j :: !OccursAt(t, p, j)
  {
    var k :| 0 <= k < |p| && p[k] == c;
    forall j | 0 <= j && j + |p| <= |t|
      ensures !OccursAt(t, p, j)
    {
      assert t[j..j + |p|][k] == t[j + k] != p[k];
    }
  }

  lemma OccursAtFromChars(t: string, p: string, i: nat)
    requires i + |p| <= |t|
    requires forall k :: 0 <= k < |p| ==> t[i + k] == p[k]
    ensures OccursAt(t, p, i)
  {
    assert t[i..i + |p|] == p;
  }

  /** An answer that opens with "Team A" picks A, whatever follows. */
  lemma ExampleOnlyTeamA()
    ensures ExtractChoice(JString("Team A is better because of yards")) == Some(A)
    ensures ExtractChoice(JString("Team A, not Team B")) == Some(A)
  {
    var t := Lower("Team A is better because of yards");
    assert forall k :: 0 <= k < 6 ==> t[k] == PhraseA[k];
    OccursAtFromChars(t, PhraseA, 0);
    PhrasesNeverStartTogether(t, 0);
    var u := Lower("Team A, not Team B");
    assert forall k :: 0 <= k < 6 ==> u[k] == PhraseA[k];
    OccursAtFromChars(u, PhraseA, 0);
    PhrasesNeverStartTogether(u, 0);
  }

  /** With both phrases present the earlier one wins. */
  lemma ExampleTeamBFirst()
    ensures ExtractChoice(JString("I'd pick Team B, not team A")) == Some(B)
  {
    var s := "I'd pick Team B, not team A";
    var t := Lower(s);
    assert forall k :: 0 <= k < 6 ==> t[9 + k] == PhraseB[k];
    OccursAtFromChars(t, PhraseB, 9);
    assert forall j :: 0 <= j < 9 ==> s[j] != 't' && s[j] != 'T';
    forall j | 0 <= j < 9
      ensures !OccursAt(t, PhraseA, j)
    {
      assert t[j..j + 6][0] == t[j] != PhraseA[0];
    }
    PhrasesNeverStartTogether(t, 9);
    ExtractChoiceIsB(s);
  }

  /** An answer that names neither team gives no choice. */
  lemma ExampleNeitherTeam()
    ensures ExtractChoice(JString("unclear which is stronger")) == None
  {
    var s := "unclear which is stronger";
    assert forall i :: 0 <= i < |s| ==> s[i] != 'm' && s[i] != 'M';
    NoOccurrenceWithout(Lower(s), PhraseA, 'm');
    NoOccurrenceWithout(Lower(s), PhraseB, 'm');
  }
}
