/**
  Scramble generation (`generateScramble` in script.js): twenty moves drawn
  from the eighteen face turns, never two in a row on the same face, joined
  by single spaces into the text shown above the timer.
 */
module Scramble {

  /** The move table, in script.js's order: each face plain, prime and double. */
  const Moves: seq<string> := ["U", "U'", "U2", "D", "D'", "D2", "L", "L'", "L2",
                               "R", "R'", "R2", "F", "F'", "F2", "B", "B'", "B2"]
  const ScrambleLength: nat := 20

  /** The face a move turns: its first character. */
  function Face(m: string): char
    requires |m| > 0
  {
    m[0]
  }

  /** Eighteen moves of one or two characters, none containing a space. */
  lemma MovesShape()
    ensures |Moves| == 18
    ensures forall m :: m in Moves ==> 1 <= |m| <= 2 && ' ' !in m
  {
  }

  /** The table is the six faces in turn, each plain, prime and double. */
  lemma MovesAreFaceTurns()
    ensures forall k :: 0 <= k < |Moves| ==> |Moves[k]| > 0 && Face(Moves[k]) == "UDLRFB"[k / 3]
    ensures forall k :: 0 <= k < |Moves| ==> Moves[k][1..] == ["", "'", "2"][k % 3]
  {
    assert forall k :: 0 <= k < |Moves| ==> |Moves[k]| > 0;
  }

  /** Every move is from the table and neighbouring moves turn different faces. */
  predicate NoRepeatedFace(ms: seq<string>)
  {
    (forall i :: 0 <= i < |ms| ==> ms[i] in Moves) &&
    (forall i, j :: 0 <= i < |ms| && j == i + 1 && j < |ms| ==>
       |ms[i]| > 0 && |ms[j]| > 0 && Face(ms[i]) != Face(ms[j]))
  }

  predicate IsScramble(ms: seq<string>)
  {
    |ms| == ScrambleLength && NoRepeatedFace(ms)
  }

  /**
    The generator's loop. Each `Math.random` draw is a nondeterministic
    choice from the table; the redraw loop is represented by what it
    establishes on exit, a move whose face differs from the previous one.
   */
  method Generate() returns (ms: seq<string>)
    ensures IsScramble(ms)
  {
    ms := [];
    for i := 0 to ScrambleLength
      invariant |ms| == i
      invariant NoRepeatedFace(ms)
    {
      var k :| 0 <= k < |Moves|;
      MoveAt(k);
      if i > 0 && Face(Moves[k]) == Face(ms[i - 1]) {
        var other := if Face(ms[i - 1]) == 'U' then 3 else 0;
        MoveAt(other);
        k :| 0 <= k < |Moves| && Face(Moves[k]) != Face(ms[i - 1]);
        MoveAt(k);
      }
      Extend(ms, Moves[k]);
      ms := ms + [Moves[k]];
    }
  }

  lemma MoveAt(k: int)
    requires 0 <= k < |Moves|
    ensures Moves[k] in Moves && |Moves[k]| > 0
    ensures k == 0 ==> Face(Moves[k]) == 'U'
    ensures k == 3 ==> Face(Moves[k]) == 'D'
  {
  }

  /** Appending a table move on a different face than the last keeps the adjacency rule. */
  lemma Extend(ms: seq<string>, m: string)
    requires NoRepeatedFace(ms) && m in Moves && |m| > 0
    requires |ms| > 0 ==> |ms[|ms| - 1]| > 0 && Face(m) != Face(ms[|ms| - 1])
    ensures NoRepeatedFace(ms + [m])
  {
  }

  /** `Array.prototype.join(' ')`: the moves separated by single spaces. */
  function Join(ms: seq<string>): (r: string)
    ensures |ms| > 0 ==> ms[0] <= r
  {
    if |ms| == 0 then ""
    else if |ms| == 1 then ms[0]
    else ms[0] + " " + Join(ms[1..])
  }

  /** Joining space-free moves puts exactly one space between each neighbouring pair. */
  lemma {:induction false} JoinSeparators(ms: seq<string>)
    requires |ms| > 0
    requires forall i :: 0 <= i < |ms| ==> ' ' !in ms[i]
    ensures multiset(Join(ms))[' '] == |ms| - 1
  {
    if |ms| > 1 {
      assert forall i :: 0 <= i < |ms| - 1 ==> ms[1..][i] == ms[i + 1];
      JoinSeparators(ms[1..]);
      assert multiset(ms[0] + " " + Join(ms[1..]))
          == multiset(ms[0]) + multiset(" ") + multiset(Join(ms[1..]));
    }
  }

  /** Cutting a text at every space, the inverse of Join. */
  function Split(s: string): (r: seq<string>)
    ensures |r| >= 1
  {
    if |s| == 0 then [""]
    else
      var rest := Split(s[1..]);
      if s[0] == ' ' then [""] + rest
      else [[s[0]] + rest[0]] + rest[1..]
  }

  lemma {:induction false} SplitSpaceFree(w: string, t: string)
    requires ' ' !in w
    ensures Split(w + t) == [w + Split(t)[0]] + Split(t)[1..]
  {
    if |w| > 0 {
      assert (w + t)[1..] == w[1..] + t;
      SplitSpaceFree(w[1..], t);
      assert [w[0]] + (w[1..] + Split(t)[0]) == w + Split(t)[0];
    } else {
      assert w + t == t;
      assert w + Split(t)[0] == Split(t)[0];
    }
  }

  /** The scramble text determines its moves: splitting it at spaces gives them back. */
  lemma {:induction false} SplitJoin(ms: seq<string>)
    requires |ms| > 0
    requires forall i :: 0 <= i < |ms| ==> ' ' !in ms[i]
    ensures Split(Join(ms)) == ms
  {
    if |ms| == 1 {
      SplitSpaceFree(ms[0], "");
      assert ms[0] + "" == ms[0];
    } else {
      SplitJoin(ms[1..]);
      var t := " " + Join(ms[1..]);
      assert t[1..] == Join(ms[1..]);
      assert Split(t) == [""] + ms[1..];
      assert ms[0] + " " + Join(ms[1..]) == ms[0] + t;
      SplitSpaceFree(ms[0], t);
      assert ms[0] + "" == ms[0];
      assert [ms[0]] + ms[1..] == ms;
    }
  }

  /** A generated scramble's text splits back into exactly its twenty moves. */
  lemma ScrambleTextDeterminesMoves(ms: seq<string>)
    requires IsScramble(ms)
    ensures |Split(Join(ms))| == ScrambleLength
    ensures Split(Join(ms)) == ms
  {
    MovesShape();
    SplitJoin(ms);
  }
}
