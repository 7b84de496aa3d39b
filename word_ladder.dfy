/**
 * word_ladder_puzzle.py: a word-ladder configuration steps from `from_word`
 * to any word of the word set that differs from it by one substituted
 * lower-case letter, and is solved once `from_word` equals `to_word`.
 */
module WordLadder {
  import opened Puzzles

  /** `self._chars`: the letters a substitution may write, in loop order. */
  const Letters: string := "abcdefghijklmnopqrstuvwxyz"

  /** `Letters` spells out the alphabet: position `l` holds the `l`-th letter. */
  lemma LettersSpelled()
    ensures |Letters| == 26
    ensures forall l | 0 <= l < 26 :: Letters[l] == (97 + l) as char
  {
  }

  /** A lower-case letter of the English alphabet. */
  predicate IsLetter(ch: char)
  {
    'a' <= ch <= 'z'
  }

  datatype Ladder = Ladder(fromWord: string, toWord: string, wordSet: set<string>)

  /** `from_word[:index] + char + from_word[index + 1:]`. */
  function Substitute(w: string, i: nat, ch: char): (r: string)
    requires i < |w|
    ensures |r| == |w| && r[i] == ch
    ensures forall j | 0 <= j < |w| && j != i :: r[j] == w[j]
  {
    w[..i] + [ch] + w[i + 1..]
  }

  /** The words in `w`'s set that one substitution turns `p`'s word into. */
  ghost predicate OneLetter(p: Ladder, q: Ladder)
  {
    q.toWord == p.toWord && q.wordSet == p.wordSet && q.fromWord in p.wordSet &&
    exists i, ch | 0 <= i < |p.fromWord| && IsLetter(ch) :: q.fromWord == Substitute(p.fromWord, i, ch)
  }

  /** The inner loop: letter `ch` tried at the indices below `n`, in index order. */
  function AtIndices(p: Ladder, ch: char, n: nat): (r: seq<Ladder>)
    requires n <= |p.fromWord|
    ensures |r| <= n
  {
    if n == 0 then []
    else
      var w := Substitute(p.fromWord, n - 1, ch);
      AtIndices(p, ch, n - 1) + (if w in p.wordSet then [Ladder(w, p.toWord, p.wordSet)] else [])
  }

  /** The outer loop: the first `k` letters, each tried at every index. */
  function ForLetters(p: Ladder, k: nat): (r: seq<Ladder>)
    requires k <= |Letters|
    ensures |r| <= k * |p.fromWord|
  {
    if k == 0 then []
    else
      assert (k - 1) * |p.fromWord| + |p.fromWord| == k * |p.fromWord|;
      ForLetters(p, k - 1) + AtIndices(p, Letters[k - 1], |p.fromWord|)
  }

  /** What the inner loop appends is a word of the set, one substitution by `ch` away. */
  lemma {:induction false} AtIndicesSound(p: Ladder, ch: char, n: nat, q: Ladder)
    requires n <= |p.fromWord| && q in AtIndices(p, ch, n)
    ensures q.toWord == p.toWord && q.wordSet == p.wordSet && q.fromWord in p.wordSet
    ensures exists i | 0 <= i < n :: q.fromWord == Substitute(p.fromWord, i, ch)
    decreases n
  {
    var w := Substitute(p.fromWord, n - 1, ch);
    if q in AtIndices(p, ch, n - 1) {
      AtIndicesSound(p, ch, n - 1, q);
    } else {
      assert q == Ladder(w, p.toWord, p.wordSet);
    }
  }

  /** What the outer loop gathers is one substitution by a lower-case letter away. */
  lemma {:induction false} ForLettersSound(p: Ladder, k: nat, q: Ladder)
    requires k <= |Letters| && q in ForLetters(p, k)
    ensures OneLetter(p, q)
    decreases k
  {
    if q in ForLetters(p, k - 1) {
      ForLettersSound(p, k - 1, q);
    } else {
      LettersSpelled();
      AtIndicesSound(p, Letters[k - 1], |p.fromWord|, q);
    }
  }

  /** The extensions, in the order the two loops produce them. */
  function Successors(p: Ladder): seq<Ladder>
  {
    ForLetters(p, |Letters|)
  }

  /** `extensions`: letters in the outer loop, indices in the inner one. */
  method Extensions(p: Ladder) returns (ext: seq<Ladder>)
    ensures ext == Successors(p)
  {
    ext := [];
    var k: nat := 0;
    while k < |Letters|
      invariant k <= |Letters|
      invariant ext == ForLetters(p, k)
    {
      var ch := Letters[k];
      var index: nat := 0;
      while index < |p.fromWord|
        invariant index <= |p.fromWord|
        invariant ext == ForLetters(p, k) + AtIndices(p, ch, index)
      {
        var word := p.fromWord[..index] + [ch] + p.fromWord[index + 1..];
        assert word == Substitute(p.fromWord, index, ch);
        if word in p.wordSet {
          ext := ext + [Ladder(word, p.toWord, p.wordSet)];
        }
        index := index + 1;
      }
      k := k + 1;
    }
  }

  /** Every substitution that lands in the word set is found by the inner loop. */
  lemma {:induction false} AtIndicesComplete(p: Ladder, ch: char, n: nat, i: nat)
    requires n <= |p.fromWord| && i < n && Substitute(p.fromWord, i, ch) in p.wordSet
    ensures Ladder(Substitute(p.fromWord, i, ch), p.toWord, p.wordSet) in AtIndices(p, ch, n)
    decreases n
  {
    var w := Substitute(p.fromWord, n - 1, ch);
    var prefix := AtIndices(p, ch, n - 1);
    if i < n - 1 {
      AtIndicesComplete(p, ch, n - 1, i);
      assert AtIndices(p, ch, n) == prefix + (if w in p.wordSet then [Ladder(w, p.toWord, p.wordSet)] else []);
    } else {
      assert AtIndices(p, ch, n) == prefix + [Ladder(w, p.toWord, p.wordSet)];
    }
  }

  /** Every substitution by a letter of `Letters` that lands in the word set is found. */
  lemma {:induction false} ForLettersComplete(p: Ladder, k: nat, i: nat, l: nat)
    requires k <= |Letters| && l < k && i < |p.fromWord|
    requires Substitute(p.fromWord, i, Letters[l]) in p.wordSet
    ensures Ladder(Substitute(p.fromWord, i, Letters[l]), p.toWord, p.wordSet) in ForLetters(p, k)
    decreases k
  {
    if l < k - 1 {
      ForLettersComplete(p, k - 1, i, l);
    } else {
      AtIndicesComplete(p, Letters[l], |p.fromWord|, i);
    }
  }

  /** A configuration is an extension exactly when it is one substitution away within the word set. */
  lemma SuccessorsExactly(p: Ladder, q: Ladder)
    ensures q in Successors(p) <==> OneLetter(p, q)
  {
    LettersSpelled();
    if q in Successors(p) {
      ForLettersSound(p, |Letters|, q);
    }
    if OneLetter(p, q) {
      var i, ch :| 0 <= i < |p.fromWord| && IsLetter(ch) && q.fromWord == Substitute(p.fromWord, i, ch);
      var l := ch as int - 97;
      assert Letters[l] == ch;
      ForLettersComplete(p, |Letters|, i, l);
    }
  }

  /** At most one extension per letter and index. */
  lemma SuccessorsBound(p: Ladder)
    ensures |Successors(p)| <= 26 * |p.fromWord|
  {
    LettersSpelled();
  }

  /** An extension differs from its parent's word in at most one position. */
  lemma SuccessorsOneApart(p: Ladder, q: Ladder, j: nat, k: nat)
    requires q in Successors(p) && j < k < |p.fromWord|
    ensures |q.fromWord| == |p.fromWord|
    ensures q.fromWord[j] == p.fromWord[j] || q.fromWord[k] == p.fromWord[k]
  {
    SuccessorsExactly(p, q);
    var i, ch :| 0 <= i < |p.fromWord| && IsLetter(ch) && q.fromWord == Substitute(p.fromWord, i, ch);
  }

  /**
   * Writing a letter over itself is a substitution too: a word of the set
   * with one lower-case letter is among its own extensions.
   */
  lemma SelfExtension(p: Ladder, i: nat)
    requires i < |p.fromWord| && IsLetter(p.fromWord[i]) && p.fromWord in p.wordSet
    ensures p in Successors(p)
  {
    assert Substitute(p.fromWord, i, p.fromWord[i]) == p.fromWord;
    SuccessorsExactly(p, p);
  }

  /** An empty word set admits no extension. */
  lemma NoWordsNoSuccessors(p: Ladder)
    requires p.wordSet == {}
    ensures Successors(p) == []
  {
    var r := Successors(p);
    if r != [] {
      ForLettersSound(p, |Letters|, r[0]);
    }
  }

  /** The example of `extensions`: 'lab' is one step from 'cab', 'mow' is not. */
  lemma CabExample()
    ensures var ws := {"lab", "tab", "cat", "cap", "pow"};
      Ladder("lab", "mow", ws) in Successors(Ladder("cab", "mow", ws)) &&
      Ladder("mow", "mow", ws) !in Successors(Ladder("cab", "mow", ws))
  {
    var ws := {"lab", "tab", "cat", "cap", "pow"};
    var p := Ladder("cab", "mow", ws);
    assert Substitute("cab", 0, 'l') == "lab";
    assert Letters[11] == 'l';
    ForLettersComplete(p, |Letters|, 0, 11);
    if Ladder("mow", "mow", ws) in Successors(p) {
      SuccessorsOneApart(p, Ladder("mow", "mow", ws), 0, 1);
    }
  }

  /** `is_solved`: the ladder has reached its target word. */
  predicate IsSolved(p: Ladder)
  {
    p.fromWord == p.toWord
  }

  /** `__eq__`: the same words and the same word set. */
  function Equal(a: Ladder, b: Ladder): (r: bool)
    ensures r <==> a == b
  {
    a.fromWord == b.fromWord && a.toWord == b.toWord && a.wordSet == b.wordSet
  }

  /** `__str__`, the search key: "from -> to". */
  function Key(p: Ladder): (r: string)
    ensures |r| == |p.fromWord| + 4 + |p.toWord|
  {
    p.fromWord + " -> " + p.toWord
  }

  /** The key has a space right after the from-word. */
  lemma KeySeparator(p: Ladder)
    ensures Key(p)[|p.fromWord|] == ' ' && Key(p)[..|p.fromWord|] == p.fromWord
  {
  }

  /**
   * The key ignores the word set; for words without a space it still tells
   * apart any two ladders with different words.
   */
  lemma KeyDistinguishesWords(a: Ladder, b: Ladder)
    requires ' ' !in a.fromWord && ' ' !in b.fromWord && Key(a) == Key(b)
    ensures a.fromWord == b.fromWord && a.toWord == b.toWord
  {
    var n, m := |a.fromWord|, |b.fromWord|;
    if n < m {
      KeySeparator(a);
      assert false;
    } else if m < n {
      KeySeparator(b);
      assert false;
    }
    assert a.fromWord == Key(a)[..n] && b.fromWord == Key(b)[..n];
    assert a.toWord == Key(a)[n + 4..] && b.toWord == Key(b)[n + 4..];
  }

  /** The word ladder as a configuration of the search engine; `fail_fast` is never true. */
  function LadderContract(): Contract<Ladder>
  {
    Contract(p => Successors(p), p => IsSolved(p), p => false, p => Key(p))
  }

  /** The ladders a search from `p` can meet: `p` and every word of its set. */
  function Reach(p: Ladder): (r: set<Ladder>)
    ensures p in r
  {
    {p} + set w | w in p.wordSet :: Ladder(w, p.toWord, p.wordSet)
  }

  /**
   * When no word holds a space, the key tells apart the ladders a search
   * from `p` meets, so an answer of None from either search means no chain
   * of one-letter changes leads from the start to the target.
   */
  lemma ReachKeysInjective(p: Ladder)
    requires ' ' !in p.fromWord && forall w | w in p.wordSet :: ' ' !in w
    ensures KeysInjective(LadderContract(), Reach(p))
  {
    var c := LadderContract();
    forall a, b | a in Reach(p) && b in Reach(p) && c.key(a) == c.key(b) ensures a == b {
      KeyDistinguishesWords(a, b);
    }
  }

  /** Either search may run on a word ladder: its reachable configurations are finite and closed. */
  lemma ReachClosed(p: Ladder)
    ensures Closed(LadderContract(), Reach(p))
  {
    var c := LadderContract();
    forall q, i | q in Reach(p) && 0 <= i < |c.extensions(q)|
      ensures c.extensions(q)[i] in Reach(p)
    {
      var e := Successors(q)[i];
      SuccessorsExactly(q, e);
      assert e == Ladder(e.fromWord, p.toWord, p.wordSet);
    }
  }
}
