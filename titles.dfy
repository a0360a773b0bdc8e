/** What the two nested title-word tables share: the word normaliser
    applied token by token with the ignore list, the word loop that counts
    the surviving words into a table, and facts about streams of
    (key, words) steps. */
module Titles {
  import opened Ordering
  import opened Grouping
  import opened Text
  import opened Membership

  /** The normalised form of every token that survives, in order: a
      survivor is non-empty and not on the ignore list. */
  function Clean(tokens: seq<string>, ignored: seq<string>): seq<string> {
    if tokens == [] then []
    else
      var w := Normalise(tokens[|tokens| - 1]);
      Clean(tokens[..|tokens| - 1], ignored) + (if w in ignored || w == [] then [] else [w])
  }

  /** Every counted word is non-empty, lower-case alphanumeric and not
      ignored. */
  lemma {:induction false} CleanWords(tokens: seq<string>, ignored: seq<string>)
    ensures forall w :: w in Clean(tokens, ignored) ==>
      w != [] && AllAlnum(w) && NoUpper(w) && w !in ignored
  {
    if tokens != [] {
      CleanWords(tokens[..|tokens| - 1], ignored);
    }
  }

  /** A token that does not survive adds nothing. */
  lemma {:induction false} CleanSkip(tokens: seq<string>, j: int, ignored: seq<string>)
    requires 0 <= j < |tokens|
    requires Normalise(tokens[j]) in ignored || Normalise(tokens[j]) == []
    ensures Clean(tokens[..j + 1], ignored) == Clean(tokens[..j], ignored)
  {
    assert tokens[..j + 1][..j] == tokens[..j];
  }

  /** A token that survives adds its normalised form. */
  lemma {:induction false} CleanKeep(tokens: seq<string>, j: int, ignored: seq<string>)
    requires 0 <= j < |tokens|
    requires Normalise(tokens[j]) !in ignored && Normalise(tokens[j]) != []
    ensures Clean(tokens[..j + 1], ignored) == Clean(tokens[..j], ignored) + [Normalise(tokens[j])]
  {
    assert tokens[..j + 1][..j] == tokens[..j];
  }

  /** The word loop of both tables: each token is normalised and, unless
      it is empty or the sorted ignore list holds it, counted into t. */
  method CountTokens(t: seq<Entry<string>>, tokens: seq<string>, ignored: seq<string>) returns (r: seq<Entry<string>>)
    requires SortedBy(ignored, LexLeq)
    ensures r == Fold(t, Ones(Clean(tokens, ignored)))
  {
    r := t;
    for j := 0 to |tokens|
      invariant r == Fold(t, Ones(Clean(tokens[..j], ignored)))
    {
      var w := NormaliseWord(tokens[j]);
      var skip := BinarySearch(ignored, w);
      if !skip && w != [] {
        CleanKeep(tokens, j, ignored);
        FoldSnoc(t, Clean(tokens[..j], ignored), w, 1);
        r := Accumulate(r, w, 1);
      } else {
        CleanSkip(tokens, j, ignored);
      }
    }
    assert tokens[..|tokens|] == tokens;
  }

  /** Counting a single word is one find-or-create step. */
  lemma {:induction false} OneWord(t: seq<Entry<string>>, w: string)
    ensures Fold(t, Ones([w])) == Add(t, w, 1)
  {
    assert Ones([w]) == [(w, 1)];
    assert [(w, 1)][..0] == [];
  }

  /** A group table grows by one Enter step per step of the stream. */
  lemma {:induction false} GroupsSnoc<K>(st: seq<(K, seq<string>)>, k: K, ws: seq<string>)
    ensures Groups(st + [(k, ws)]) == Enter(Groups(st), k, ws)
  {
    assert (st + [(k, ws)])[..|st|] == st;
  }

  lemma {:induction false} FirstsAppend<K>(a: seq<(K, seq<string>)>, b: seq<(K, seq<string>)>)
    ensures Firsts(a + b) == Firsts(a) + Firsts(b)
  {
    assert forall i :: 0 <= i < |a| + |b| ==> Firsts(a + b)[i] == (Firsts(a) + Firsts(b))[i];
  }

  lemma {:induction false} WordsForAppend<K>(a: seq<(K, seq<string>)>, b: seq<(K, seq<string>)>, k: K)
    ensures WordsFor(a + b, k) == WordsFor(a, k) + WordsFor(b, k)
  {
    if b == [] {
      assert a + b == a;
    } else {
      var init := b[..|b| - 1];
      var ab := a + b;
      assert ab[..|ab| - 1] == a + init && ab[|ab| - 1] == b[|b| - 1];
      WordsForAppend(a, init, k);
    }
  }

  /** The keys of a group table are the distinct keys of its stream, and
      its groups count the words each key was given. */
  lemma {:induction false} GroupsMeaning<K>(st: seq<(K, seq<string>)>)
    ensures Distinct(Keys(Heads(Groups(st))))
    ensures forall k :: k in Keys(Heads(Groups(st))) <==> k in Firsts(st)
    ensures forall i :: 0 <= i < |Groups(st)| ==>
      Groups(st)[i].words == Totals(Ones(WordsFor(st, Groups(st)[i].key)))
  {
    GroupsSpec(st);
    AbsorbSpec([], Firsts(st));
  }

  /** A word table built from a word stream: its keys are distinct, each
      word's frequency is how often the stream holds it, and its keys are
      the words of the stream. */
  lemma {:induction false} WordTable(ws: seq<string>, w: string)
    ensures Distinct(Keys(Totals(Ones(ws))))
    ensures ValueOf(Totals(Ones(ws)), w) == multiset(ws)[w]
    ensures w in Keys(Totals(Ones(ws))) <==> w in ws
  {
    TotalsSpec(Ones(ws));
    CountSpec(ws, w);
    FirstsOnes(ws);
  }
}
