/**
 The shape of the text produced by bridge-word augmentation: every input
 token in its original order, each followed by at most one inserted word
 before the next token, and the last token emitted as it is.
 */
module TextAugment {
  import opened WordGraph

  function Inserted(o: Option<Word>): seq<Word>
  {
    match o
    case None => []
    case Some(b) => [b]
  }

  /** Number of pairs that received an inserted word. */
  function CountSome(ins: seq<Option<Word>>): nat
    decreases |ins|
  {
    if ins == [] then 0 else CountSome(ins[..|ins| - 1]) + |Inserted(ins[|ins| - 1])|
  }

  /** For each of the first |ins| pairs, tokens[k] followed by what was inserted after it, in order. */
  function Weave(tokens: seq<Word>, ins: seq<Option<Word>>): seq<Word>
    requires |ins| <= |tokens|
    decreases |ins|
  {
    if ins == [] then []
    else
      Weave(tokens, ins[..|ins| - 1]) + [tokens[|ins| - 1]] + Inserted(ins[|ins| - 1])
  }

  /** The augmented token sequence: ins[i] is what goes between tokens[i] and tokens[i + 1]. */
  function Augmented(tokens: seq<Word>, ins: seq<Option<Word>>): seq<Word>
    requires |tokens| >= 1 && |ins| == |tokens| - 1
  {
    Weave(tokens, ins) + [tokens[|tokens| - 1]]
  }

  /**
   ins is a possible run of choices for the first |ins| token pairs over adj:
   a pair gets a word exactly when it has a bridge word, and the word it gets
   is one.
   */
  ghost predicate ValidChoices(adj: Adjacency, tokens: seq<Word>, ins: seq<Option<Word>>)
  {
    && |ins| < |tokens|
    && forall i :: 0 <= i < |ins| ==>
         && (ins[i].None? <==> BridgeSet(adj, tokens[i], tokens[i + 1]) == {})
         && (ins[i].Some? ==> IsBridge(adj, tokens[i], ins[i].value, tokens[i + 1]))
  }

  /** ins is a possible run of choices for every token pair. */
  ghost predicate ValidInsertions(adj: Adjacency, tokens: seq<Word>, ins: seq<Option<Word>>)
  {
    |tokens| >= 1 && |ins| == |tokens| - 1 && ValidChoices(adj, tokens, ins)
  }

  /** A valid choice for the next token pair extends a valid run of choices. */
  lemma ChoiceStep(adj: Adjacency, tokens: seq<Word>, ins: seq<Option<Word>>, o: Option<Word>)
    requires ValidChoices(adj, tokens, ins) && |ins| + 1 < |tokens|
    requires o.None? <==> BridgeSet(adj, tokens[|ins|], tokens[|ins| + 1]) == {}
    requires o.Some? ==> IsBridge(adj, tokens[|ins|], o.value, tokens[|ins| + 1])
    ensures ValidChoices(adj, tokens, ins + [o])
  {
  }

  /** One iteration of the augmentation loop appends the current token and what was inserted after it. */
  lemma WeaveStep(tokens: seq<Word>, ins: seq<Option<Word>>, o: Option<Word>)
    requires |ins| < |tokens|
    ensures Weave(tokens, ins + [o]) == Weave(tokens, ins) + [tokens[|ins|]] + Inserted(o)
  {
    assert (ins + [o])[..|ins|] == ins;
  }

  /** Once every pair has its choice, appending the last token completes the augmented text. */
  lemma FinishAugmented(adj: Adjacency, tokens: seq<Word>, ins: seq<Option<Word>>, out: seq<Word>)
    requires |tokens| >= 1 && |ins| == |tokens| - 1 && ValidChoices(adj, tokens, ins)
    requires out == Weave(tokens, ins)
    ensures ValidInsertions(adj, tokens, ins)
    ensures out + [tokens[|tokens| - 1]] == Augmented(tokens, ins)
    ensures |tokens| == 1 ==> out + [tokens[|tokens| - 1]] == tokens
  {
  }

  /** Where tokens[j] lands in the output: after j earlier tokens and their insertions. */
  function Position(ins: seq<Option<Word>>, j: int): int
    requires 0 <= j <= |ins|
  {
    j + CountSome(ins[..j])
  }

  lemma {:induction false} WeaveLength(tokens: seq<Word>, ins: seq<Option<Word>>)
    requires |ins| <= |tokens|
    ensures |Weave(tokens, ins)| == |ins| + CountSome(ins)
    decreases |ins|
  {
    if ins != [] {
      WeaveLength(tokens, ins[..|ins| - 1]);
    }
  }

  /** Weaving a prefix of the pairs gives a prefix of the output. */
  lemma {:induction false} WeavePrefix(tokens: seq<Word>, ins: seq<Option<Word>>, j: int)
    requires |ins| <= |tokens| && 0 <= j <= |ins|
    ensures Weave(tokens, ins[..j]) <= Weave(tokens, ins)
    decreases |ins|
  {
    if j < |ins| {
      var n := |ins| - 1;
      assert ins[..n][..j] == ins[..j];
      WeavePrefix(tokens, ins[..n], j);
    } else {
      assert ins[..j] == ins;
    }
  }

  /** tokens[j] of a non-final pair lands at Position(ins, j), its insertion right after it. */
  lemma WovenAt(tokens: seq<Word>, ins: seq<Option<Word>>, j: int)
    requires |tokens| >= 1 && |ins| == |tokens| - 1 && 0 <= j < |ins|
    ensures Position(ins, j) < |Augmented(tokens, ins)|
    ensures Augmented(tokens, ins)[Position(ins, j)] == tokens[j]
    ensures ins[j].Some? ==> Position(ins, j) + 1 < |Augmented(tokens, ins)| &&
                             Augmented(tokens, ins)[Position(ins, j) + 1] == ins[j].value
  {
    WeavePrefix(tokens, ins, j + 1);
    WeaveLength(tokens, ins[..j]);
    var before := Weave(tokens, ins[..j]);
    WeaveStep(tokens, ins[..j], ins[j]);
    assert ins[..j] + [ins[j]] == ins[..j + 1];
    assert |before| == Position(ins, j);
  }

  /**
   Layout of the augmented text: its length is the token count plus the
   number of insertions, tokens[j] sits at Position(ins, j), and when the
   pair j received a word it sits right after tokens[j]. Consecutive tokens
   are therefore one or two places apart, in their original order.
   */
  lemma AugmentedLayout(tokens: seq<Word>, ins: seq<Option<Word>>)
    requires |tokens| >= 1 && |ins| == |tokens| - 1
    ensures |Augmented(tokens, ins)| == |tokens| + CountSome(ins)
    ensures forall j :: 0 <= j < |tokens| ==>
              Position(ins, j) < |Augmented(tokens, ins)| && Augmented(tokens, ins)[Position(ins, j)] == tokens[j]
    ensures forall j :: 0 <= j < |ins| && ins[j].Some? ==>
              Position(ins, j) + 1 < |Augmented(tokens, ins)| &&
              Augmented(tokens, ins)[Position(ins, j) + 1] == ins[j].value
    ensures forall j :: 0 <= j < |ins| ==>
              Position(ins, j + 1) == Position(ins, j) + 1 + |Inserted(ins[j])|
  {
    LastTokenAt(tokens, ins);
    forall j | 0 <= j < |ins|
      ensures Position(ins, j + 1) == Position(ins, j) + 1 + |Inserted(ins[j])|
      ensures Position(ins, j) < |Augmented(tokens, ins)| && Augmented(tokens, ins)[Position(ins, j)] == tokens[j]
      ensures ins[j].Some? ==> Position(ins, j) + 1 < |Augmented(tokens, ins)| &&
                               Augmented(tokens, ins)[Position(ins, j) + 1] == ins[j].value
    {
      PositionStep(ins, j);
      WovenAt(tokens, ins, j);
    }
  }

  /** The last token ends the augmented text, after every other token and insertion. */
  lemma LastTokenAt(tokens: seq<Word>, ins: seq<Option<Word>>)
    requires |tokens| >= 1 && |ins| == |tokens| - 1
    ensures |Augmented(tokens, ins)| == |tokens| + CountSome(ins)
    ensures Position(ins, |ins|) == |Augmented(tokens, ins)| - 1
    ensures Augmented(tokens, ins)[Position(ins, |ins|)] == tokens[|tokens| - 1]
  {
    WeaveLength(tokens, ins);
    assert ins[..|ins|] == ins;
  }

  /** Each token is one place, plus its insertion if any, after the one before it. */
  lemma PositionStep(ins: seq<Option<Word>>, j: int)
    requires 0 <= j < |ins|
    ensures Position(ins, j + 1) == Position(ins, j) + 1 + |Inserted(ins[j])|
  {
    assert ins[..j + 1][..j] == ins[..j];
  }

  lemma {:induction false} WeaveWithoutInsertions(tokens: seq<Word>, ins: seq<Option<Word>>)
    requires |ins| <= |tokens|
    requires forall i :: 0 <= i < |ins| ==> ins[i].None?
    ensures Weave(tokens, ins) == tokens[..|ins|]
    decreases |ins|
  {
    if ins != [] {
      var n := |ins| - 1;
      WeaveWithoutInsertions(tokens, ins[..n]);
      assert tokens[..n] + [tokens[n]] == tokens[..n + 1];
    }
  }

  /** When no adjacent pair has a bridge word the text comes back unchanged. */
  lemma UnchangedWithoutBridges(adj: Adjacency, tokens: seq<Word>, ins: seq<Option<Word>>)
    requires ValidInsertions(adj, tokens, ins)
    requires forall i :: 0 <= i < |tokens| - 1 ==> BridgeSet(adj, tokens[i], tokens[i + 1]) == {}
    ensures Augmented(tokens, ins) == tokens
  {
    forall i | 0 <= i < |ins| ensures ins[i].None? {
      assert BridgeSet(adj, tokens[i], tokens[i + 1]) == {};
    }
    WeaveWithoutInsertions(tokens, ins);
    assert tokens[..|ins|] + [tokens[|ins|]] == tokens;
  }
}
