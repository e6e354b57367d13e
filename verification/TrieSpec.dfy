/**
 The matcher of my_trie.h seen as mathematics: a trie is the set of the paths
 of its nodes, and the automaton moves from path to path.
 */
module TrieSpec {
  import opened Common

  type Path = seq<Byte>

  predicate IsSuffix(s: Path, t: Path) {
    |s| <= |t| && t[|t| - |s|..] == s
  }

  /** The paths of a trie: the root is there, and so is the parent of every other node. */
  ghost predicate PrefixClosed(paths: set<Path>) {
    && [] in paths
    && forall p: Path, c: Byte :: p + [c] in paths ==> p in paths
  }

  ghost predicate BeginsAWord(words: set<Path>, p: Path) {
    exists w :: w in words && p <= w
  }

  /** The paths of the trie that stores exactly `words`. */
  ghost predicate PathsOf(paths: set<Path>, words: set<Path>) {
    && PrefixClosed(paths)
    && words <= paths
    && forall p {:trigger BeginsAWord(words, p)} :: p in paths && p != [] ==> BeginsAWord(words, p)
  }

  // ---------------------------------------------------------------- longest suffixes

  /** `r` is the longest suffix of `t` that is a path. */
  ghost predicate IsLongestSuffix(paths: set<Path>, t: Path, r: Path) {
    && r in paths
    && IsSuffix(r, t)
    && forall s :: s in paths && IsSuffix(s, t) ==> |s| <= |r|
  }

  function LongestSuffix(paths: set<Path>, t: Path): (r: Path)
    requires [] in paths
    ensures r in paths && |r| <= |t|
  {
    if t in paths then t else LongestSuffix(paths, t[1..])
  }

  lemma SuffixOfTail(s: Path, t: Path)
    requires IsSuffix(s, t) && |s| < |t|
    ensures IsSuffix(s, t[1..])
  {
    assert t[1..][|t| - 1 - |s|..] == t[|t| - |s|..];
  }

  lemma LongerByOne(s: Path, t: Path)
    requires t != [] && IsSuffix(s, t[1..])
    ensures IsSuffix(s, t)
  {
    assert t[1..][|t| - 1 - |s|..] == t[|t| - |s|..];
  }

  lemma {:induction false} LongestSuffixIsLongest(paths: set<Path>, t: Path)
    requires [] in paths
    ensures IsLongestSuffix(paths, t, LongestSuffix(paths, t))
  {
    if t in paths {
      assert t[0..] == t;
    } else {
      LongestSuffixIsLongest(paths, t[1..]);
      LongerByOne(LongestSuffix(paths, t), t);
      forall s | s in paths && IsSuffix(s, t)
        ensures |s| <= |LongestSuffix(paths, t)|
      {
        assert t[0..] == t;
        SuffixOfTail(s, t);
      }
    }
  }

  lemma LongestSuffixUnique(paths: set<Path>, t: Path, r: Path)
    requires [] in paths && IsLongestSuffix(paths, t, r)
    ensures r == LongestSuffix(paths, t)
  {
    LongestSuffixIsLongest(paths, t);
  }

  // ---------------------------------------------------------------- the automaton

  /** The path that the failure link of the node at `p` leads to. */
  function Fail(paths: set<Path>, p: Path): (r: Path)
    requires [] in paths && p != []
    ensures r in paths && |r| < |p|
  {
    LongestSuffix(paths, p[1..])
  }

  /** Where one call of the matcher leads from the node at `p`. */
  function Move(paths: set<Path>, p: Path, c: Byte): (r: Path)
    requires [] in paths
    ensures r in paths
    decreases |p|
  {
    if p + [c] in paths then p + [c]
    else if p == [] then []
    else Move(paths, Fail(paths, p), c)
  }

  /** How many failure links that call follows. */
  function FailSteps(paths: set<Path>, p: Path, c: Byte): nat
    requires [] in paths
    decreases |p|
  {
    if p + [c] in paths || p == [] then 0
    else 1 + FailSteps(paths, Fail(paths, p), c)
  }

  /** Where the matcher is after reading `t` from the root. */
  function Run(paths: set<Path>, t: Path): (r: Path)
    requires [] in paths
    ensures r in paths
  {
    if t == [] then [] else Move(paths, Run(paths, t[..|t| - 1]), t[|t| - 1])
  }

  /** The total number of failure links followed while reading `t`. */
  function TotalFailSteps(paths: set<Path>, t: Path): nat
    requires [] in paths
  {
    if t == [] then 0
    else TotalFailSteps(paths, t[..|t| - 1]) + FailSteps(paths, Run(paths, t[..|t| - 1]), t[|t| - 1])
  }

  /** What the last call returns: the `leaf` of the node reached. */
  function Reported(paths: set<Path>, words: set<Path>, t: Path): nat
    requires [] in paths
  {
    if Run(paths, t) in words then |Run(paths, t)| else 0
  }

  // ---------------------------------------------------------------- correctness

  // Only the longest suffix of what was read matters for what comes next.
  lemma {:induction false} LongestSuffixStep(paths: set<Path>, x: Path, c: Byte)
    requires PrefixClosed(paths)
    ensures LongestSuffix(paths, x + [c]) == LongestSuffix(paths, LongestSuffix(paths, x) + [c])
  {
    if x !in paths {
      assert (x + [c])[1..] == x[1..] + [c];
      LongestSuffixStep(paths, x[1..], c);
    }
  }

  lemma {:induction false} MoveIsLongestSuffix(paths: set<Path>, p: Path, c: Byte)
    requires PrefixClosed(paths)
    ensures Move(paths, p, c) == LongestSuffix(paths, p + [c])
    decreases |p|
  {
    if p + [c] !in paths {
      if p == [] {
        assert ([] + [c])[1..] == [];
        assert LongestSuffix(paths, [] + [c]) == LongestSuffix(paths, []);
      } else {
        MoveIsLongestSuffix(paths, Fail(paths, p), c);
        LongestSuffixStep(paths, p[1..], c);
        assert (p + [c])[1..] == p[1..] + [c];
      }
    }
  }

  lemma OneMoreByte(paths: set<Path>, x: Path, c: Byte, t: Path)
    requires PrefixClosed(paths) && t == x + [c]
    ensures Move(paths, LongestSuffix(paths, x), c) == LongestSuffix(paths, t)
  {
    MoveIsLongestSuffix(paths, LongestSuffix(paths, x), c);
    LongestSuffixStep(paths, x, c);
  }

  lemma {:induction false} RunFollows(paths: set<Path>, t: Path)
    requires PrefixClosed(paths)
    ensures Run(paths, t) == LongestSuffix(paths, t)
  {
    if t != [] {
      var x, c := t[..|t| - 1], t[|t| - 1];
      RunFollows(paths, x);
      OneMoreByte(paths, x, c, t);
    }
  }

  /** After any text, the matcher stands on the longest suffix of it that is a path. */
  lemma {:induction false} RunIsLongestSuffix(paths: set<Path>, t: Path)
    requires PrefixClosed(paths)
    ensures Run(paths, t) == LongestSuffix(paths, t)
    ensures IsLongestSuffix(paths, t, Run(paths, t))
  {
    RunFollows(paths, t);
    LongestSuffixIsLongest(paths, t);
  }

  // ---------------------------------------------------------------- cost

  lemma {:induction false} FailStepsPaid(paths: set<Path>, p: Path, c: Byte)
    requires [] in paths
    ensures FailSteps(paths, p, c) + |Move(paths, p, c)| <= |p| + 1
    decreases |p|
  {
    if p + [c] !in paths && p != [] {
      FailStepsPaid(paths, Fail(paths, p), c);
    }
  }

  /** Linear matching: n bytes cost at most n failure links, less the final depth. */
  lemma {:induction false} AmortisedCost(paths: set<Path>, t: Path)
    requires [] in paths
    ensures TotalFailSteps(paths, t) + |Run(paths, t)| <= |t|
  {
    if t != [] {
      AmortisedCost(paths, t[..|t| - 1]);
      FailStepsPaid(paths, Run(paths, t[..|t| - 1]), t[|t| - 1]);
    }
  }

  // ---------------------------------------------------------------- what is reported

  /** A non-empty stored word ends where `t` ends. */
  ghost predicate WordEndsAt(words: set<Path>, t: Path) {
    exists w :: w in words && w != [] && IsSuffix(w, t)
  }

  lemma LongerSuffixHolds(w: Path, r: Path, t: Path)
    requires IsSuffix(w, t) && IsSuffix(r, t) && |w| <= |r|
    ensures IsSuffix(w, r)
  {
    assert r[|r| - |w|..] == t[|t| - |r|..][|r| - |w|..] == t[|t| - |w|..];
  }

  /** A report is right, and it is the longest stored word ending there. */
  lemma ReportIsSound(paths: set<Path>, words: set<Path>, t: Path)
    requires PathsOf(paths, words)
    ensures var n := Reported(paths, words, t);
      n > 0 ==> && n <= |t|
                && t[|t| - n..] in words
                && forall w :: w in words && IsSuffix(w, t) ==> |w| <= n
  {
    RunIsLongestSuffix(paths, t);
  }

  /** `w` stands inside `v` at a non-zero offset and ends at position `n` of `v`. */
  predicate EndsInside(w: Path, v: Path, n: nat) {
    w != [] && |w| < n <= |v| && v[n - |w|..n] == w
  }

  /**
   Every word that occurs inside another at a non-zero offset ends there together with a
   stored prefix of the other.  It holds in particular when no word occurs inside another.
   */
  ghost predicate NoHiddenWord(words: set<Path>) {
    forall w, v, n: nat :: w in words && v in words && EndsInside(w, v, n) ==> v[..n] in words
  }

  /** No non-empty stored word occurs at a non-zero offset inside a stored word. */
  ghost predicate NoInnerWord(words: set<Path>) {
    forall w, v, n: nat :: w in words && v in words ==> !EndsInside(w, v, n)
  }

  lemma {:induction false} EveryPrefixIsPath(paths: set<Path>, p: Path, n: nat)
    requires PrefixClosed(paths) && p in paths && n <= |p|
    ensures p[..n] in paths
    decreases |p|
  {
    if n < |p| {
      assert p[..|p| - 1] + [p[|p| - 1]] == p;
      EveryPrefixIsPath(paths, p[..|p| - 1], n);
      assert p[..|p| - 1][..n] == p[..n];
    } else {
      assert p[..n] == p;
    }
  }

  lemma RunOnPath(paths: set<Path>, p: Path)
    requires PrefixClosed(paths) && p in paths
    ensures Run(paths, p) == p
  {
    RunIsLongestSuffix(paths, p);
  }

  lemma EndsInsideIsSuffix(w: Path, v: Path, n: nat)
    requires |w| <= n <= |v|
    ensures v[n - |w|..n] == v[..n][n - |w|..]
  {
  }

  // A word ending where `t` ends makes the path reached a stored word.
  lemma WordEndIsStored(words: set<Path>, w: Path, r: Path)
    requires w in words && w != [] && IsSuffix(w, r) && BeginsAWord(words, r) && NoHiddenWord(words)
    ensures r in words
  {
    var v :| v in words && r <= v;
    assert v[..|r|] == r;
    if |r| == |w| {
      assert r[0..] == r;
    } else {
      EndsInsideIsSuffix(w, v, |r|);
      assert EndsInside(w, v, |r|);
    }
  }

  lemma ReportsWhenAWordEnds(paths: set<Path>, words: set<Path>, t: Path)
    requires PathsOf(paths, words) && NoHiddenWord(words) && WordEndsAt(words, t)
    ensures Reported(paths, words, t) > 0
  {
    RunIsLongestSuffix(paths, t);
    var r := Run(paths, t);
    var w :| w in words && w != [] && IsSuffix(w, t);
    LongerSuffixHolds(w, r, t);
    assert r != [];
    WordEndIsStored(words, w, r);
  }

  lemma HiddenWordIsMissed(paths: set<Path>, words: set<Path>, w: Path, v: Path, n: nat)
    requires PathsOf(paths, words)
    requires w in words && v in words && EndsInside(w, v, n) && v[..n] !in words
    ensures WordEndsAt(words, v[..n]) && Reported(paths, words, v[..n]) == 0
  {
    EveryPrefixIsPath(paths, v, n);
    RunOnPath(paths, v[..n]);
    EndsInsideIsSuffix(w, v, n);
    assert IsSuffix(w, v[..n]);
  }

  /** For example "b" at the end of "ab", in the dictionary of "b" and "abc". */
  lemma WordInsideIsMissed(paths: set<Path>)
    requires PathsOf(paths, {[98], [97, 98, 99]})
    ensures WordEndsAt({[98], [97, 98, 99]}, [97, 98]) && Reported(paths, {[98], [97, 98, 99]}, [97, 98]) == 0
  {
    var w: Path, v: Path := [98], [97, 98, 99];
    assert v[1..2] == w && v[..2] == [97, 98];
    assert |v[..2]| == 2 && |w| == 1 && |v| == 3;
    HiddenWordIsMissed(paths, {w, v}, w, v, 2);
  }

  /** The matcher reports exactly where stored words end, whatever the text. */
  ghost predicate Complete(paths: set<Path>, words: set<Path>)
    requires [] in paths
  {
    forall t :: Reported(paths, words, t) > 0 <==> WordEndsAt(words, t)
  }

  /**
   The matcher follows no output links, so it can miss a word; over all texts it reports
   at exactly the positions where a stored word ends if and only if no word is hidden.
   */
  lemma CompleteIffNoHiddenWord(paths: set<Path>, words: set<Path>)
    requires PathsOf(paths, words)
    ensures Complete(paths, words) <==> NoHiddenWord(words)
  {
    if NoHiddenWord(words) {
      forall t ensures Reported(paths, words, t) > 0 <==> WordEndsAt(words, t) {
        if WordEndsAt(words, t) {
          ReportsWhenAWordEnds(paths, words, t);
        } else if Reported(paths, words, t) > 0 {
          NoFalseReport(paths, words, t);
        }
      }
    } else {
      var w, v, n: nat :| w in words && v in words && EndsInside(w, v, n) && v[..n] !in words;
      HiddenWordIsMissed(paths, words, w, v, n);
    }
  }

  lemma NoFalseReport(paths: set<Path>, words: set<Path>, t: Path)
    requires PathsOf(paths, words) && Reported(paths, words, t) > 0
    ensures WordEndsAt(words, t)
  {
    RunIsLongestSuffix(paths, t);
    assert IsSuffix(Run(paths, t), t);
  }

  /** The familiar sufficient condition: no stored word inside another. */
  lemma CompleteWithoutInnerWords(paths: set<Path>, words: set<Path>, t: Path)
    requires PathsOf(paths, words) && NoInnerWord(words)
    ensures Reported(paths, words, t) > 0 <==> WordEndsAt(words, t)
  {
    assert NoHiddenWord(words);
    CompleteIffNoHiddenWord(paths, words);
  }

  /** A stored key drives the matcher from the root to its own node, which reports it. */
  lemma StoredKeyIsReported(paths: set<Path>, words: set<Path>, key: Path)
    requires PathsOf(paths, words) && key in words
    ensures Run(paths, key) == key && Reported(paths, words, key) == |key|
  {
    RunIsLongestSuffix(paths, key);
  }
}
