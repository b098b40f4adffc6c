/** Rebuilding an abstract's text from its inverted index, a mapping from
    each word to the positions it occupies (`_extract_abstract`). */
module AbstractIndex {
  import opened Optional
  import opened Text

  /** One entry of the inverted index. The index is an ordered sequence of
      entries: the order in which the source mapping is iterated decides
      which word wins a position claimed twice. */
  datatype Posting = Posting(word: string, positions: seq<int>)

  /** The record's abstract field: `invertedIndex` is None when the
      `InvertedIndex` member is missing or null. The field itself being
      missing, null or an empty object is `None` at the use site. */
  datatype IndexedAbstract = IndexedAbstract(invertedIndex: Option<seq<Posting>>)

  /** Positions are never negative (a negative position would index the
      slot list from its end). */
  predicate NonNegative(index: seq<Posting>) {
    forall i, j :: 0 <= i < |index| && 0 <= j < |index[i].positions| ==> index[i].positions[j] >= 0
  }

  predicate FieldNonNegative(field: Option<IndexedAbstract>) {
    field.Some? && field.value.invertedIndex.Some? ==> NonNegative(field.value.invertedIndex.value)
  }

  function Max(a: int, b: int): int {
    if a >= b then a else b
  }

  /** The largest of `ps`, or -1 when there is none above -1. */
  function MaxIn(ps: seq<int>): (m: int)
    ensures m >= -1
    ensures forall j :: 0 <= j < |ps| ==> ps[j] <= m
    ensures m == -1 || m in ps
  {
    if |ps| == 0 then -1 else Max(MaxIn(ps[..|ps| - 1]), ps[|ps| - 1])
  }

  /** The largest position claimed by any entry, or -1 when none is. */
  function MaxPos(index: seq<Posting>): (m: int)
    ensures m >= -1
    ensures forall i, k :: 0 <= i < |index| && k in index[i].positions ==> k <= m
  {
    if |index| == 0 then -1
    else Max(MaxPos(index[..|index| - 1]), MaxIn(index[|index| - 1].positions))
  }

  /** The word that ends up at position `k`: the word of the LAST entry that
      lists `k`, or None when no entry does. */
  function LastClaim(index: seq<Posting>, k: int): Option<string>
  {
    if |index| == 0 then None
    else if k in index[|index| - 1].positions then Some(index[|index| - 1].word)
    else LastClaim(index[..|index| - 1], k)
  }

  /** A position has no word exactly when no entry claims it. */
  lemma {:induction false} UnclaimedIffNone(index: seq<Posting>, k: int)
    ensures LastClaim(index, k).None? <==> forall i :: 0 <= i < |index| ==> k !in index[i].positions
  {
    if |index| > 0 {
      UnclaimedIffNone(index[..|index| - 1], k);
    }
  }

  /** Last writer wins: the word at a claimed position comes from an entry
      that claims it, and no later entry claims it. */
  lemma {:induction false} LastWriterWins(index: seq<Posting>, k: int)
    requires LastClaim(index, k).Some?
    ensures exists i :: 0 <= i < |index| && k in index[i].positions && index[i].word == LastClaim(index, k).value
                        && forall i' :: i < i' < |index| ==> k !in index[i'].positions
  {
    var n := |index| - 1;
    if k in index[n].positions {
      assert k in index[n].positions && index[n].word == LastClaim(index, k).value;
    } else {
      LastWriterWins(index[..n], k);
      var i :| 0 <= i < n && k in index[..n][i].positions && index[..n][i].word == LastClaim(index, k).value
                && forall i' :: i < i' < n ==> k !in index[..n][i'].positions;
      assert k in index[i].positions;
    }
  }

  /** The largest position is itself claimed (unless there is none). */
  lemma {:induction false} MaxPosAttained(index: seq<Posting>)
    requires MaxPos(index) >= 0
    ensures exists i :: 0 <= i < |index| && MaxPos(index) in index[i].positions
  {
    var n := |index| - 1;
    if MaxPos(index) != MaxIn(index[n].positions) {
      MaxPosAttained(index[..n]);
      var i :| 0 <= i < n && MaxPos(index[..n]) in index[..n][i].positions;
      assert MaxPos(index) in index[i].positions;
    }
  }

  /** The slot list after every entry has been written: one slot per position
      from 0 to the largest claimed position. */
  function Slots(index: seq<Posting>): (slots: seq<Option<string>>)
  {
    seq(MaxPos(index) + 1, k => LastClaim(index, k))
  }

  /** The reconstructed abstract, as the reference the method below meets. */
  function AbstractText(field: Option<IndexedAbstract>): string
    requires FieldNonNegative(field)
  {
    match field
    case None => ""
    case Some(f) =>
      match f.invertedIndex
      case None => ""
      case Some(index) => Join(" ", KeepTruthy(Slots(index)))
  }

  /** Claims of an entry with no positions change nothing. */
  lemma ClaimEmptyEntry(prefix: seq<Posting>, w: string, k: int)
    ensures LastClaim(prefix + [Posting(w, [])], k) == LastClaim(prefix, k)
    ensures MaxPos(prefix + [Posting(w, [])]) == MaxPos(prefix)
  {
    assert (prefix + [Posting(w, [])])[..|prefix|] == prefix;
  }

  /** Claiming one more position `p` for the last entry. */
  lemma ClaimStep(prefix: seq<Posting>, w: string, ps: seq<int>, j: nat, k: int)
    requires j < |ps|
    ensures LastClaim(prefix + [Posting(w, ps[..j + 1])], k)
         == if k == ps[j] then Some(w) else LastClaim(prefix + [Posting(w, ps[..j])], k)
    ensures MaxPos(prefix + [Posting(w, ps[..j + 1])]) == Max(MaxPos(prefix + [Posting(w, ps[..j])]), ps[j])
  {
    var before := prefix + [Posting(w, ps[..j])];
    var after := prefix + [Posting(w, ps[..j + 1])];
    assert after[..|prefix|] == prefix;
    assert before[..|prefix|] == prefix;
    assert ps[..j + 1] == ps[..j] + [ps[j]];
    assert ps[..j + 1][..j] == ps[..j];
  }

  /** The slot list `words` with largest position `maxPos` is the state
      reached after writing every entry of `done`. */
  ghost predicate Filled(done: seq<Posting>, words: seq<Option<string>>, maxPos: int) {
    && maxPos == MaxPos(done)
    && |words| == maxPos + 1
    && forall k :: 0 <= k < |words| ==> words[k] == LastClaim(done, k)
  }

  /** Python's loop: grow the slot list whenever a larger position shows up,
      then write the word into its slot. */
  method FillSlots(index: seq<Posting>) returns (words: seq<Option<string>>)
    requires NonNegative(index)
    ensures |words| == MaxPos(index) + 1
    ensures words == Slots(index)
  {
    var maxPos := -1;
    words := [];
    var i := 0;
    while i < |index|
      invariant 0 <= i <= |index|
      invariant Filled(index[..i], words, maxPos)
    {
      assert forall j :: 0 <= j < |index[i].positions| ==> index[i].positions[j] >= 0;
      words, maxPos := WriteEntry(index[..i], index[i].word, index[i].positions, words, maxPos);
      assert index[..i] + [Posting(index[i].word, index[i].positions)] == index[..i + 1];
      i := i + 1;
    }
    assert index[..i] == index;
  }

  /** The inner loop over one entry's positions. */
  method WriteEntry(done: seq<Posting>, word: string, positions: seq<int>,
                    words0: seq<Option<string>>, maxPos0: int)
    returns (words: seq<Option<string>>, maxPos: int)
    requires forall j :: 0 <= j < |positions| ==> positions[j] >= 0
    requires Filled(done, words0, maxPos0)
    ensures Filled(done + [Posting(word, positions)], words, maxPos)
  {
    words, maxPos := words0, maxPos0;
    forall k | 0 <= k < |words|
      ensures words[k] == LastClaim(done + [Posting(word, positions[..0])], k)
    {
      ClaimEmptyEntry(done, word, k);
    }
    ClaimEmptyEntry(done, word, 0);
    var j := 0;
    while j < |positions|
      invariant 0 <= j <= |positions|
      invariant Filled(done + [Posting(word, positions[..j])], words, maxPos)
    {
      words, maxPos := WriteOne(done, word, positions, j, words, maxPos);
      j := j + 1;
    }
    assert positions[..j] == positions;
  }

  /** One iteration of the inner loop: the claim of `positions[j]`. */
  method WriteOne(done: seq<Posting>, word: string, positions: seq<int>, j: nat,
                  words0: seq<Option<string>>, maxPos0: int)
    returns (words: seq<Option<string>>, maxPos: int)
    requires j < |positions| && positions[j] >= 0
    requires Filled(done + [Posting(word, positions[..j])], words0, maxPos0)
    ensures Filled(done + [Posting(word, positions[..j + 1])], words, maxPos)
  {
    ghost var before := done + [Posting(word, positions[..j])];
    words, maxPos := words0, maxPos0;
    var pos := positions[j];
    if pos > maxPos {
      forall k | |words| <= k <= pos ensures LastClaim(before, k) == None {
        NoClaimBeyondMax(before, k);
      }
      maxPos := pos;
      words := words + seq(maxPos - |words| + 1, _ => None);
    }
    words := words[pos := Some(word)];
    forall k | 0 <= k < |words|
      ensures words[k] == LastClaim(done + [Posting(word, positions[..j + 1])], k)
    {
      ClaimStep(done, word, positions, j, k);
    }
    ClaimStep(done, word, positions, j, 0);
  }

  lemma NoClaimBeyondMax(index: seq<Posting>, k: int)
    requires k > MaxPos(index)
    ensures LastClaim(index, k) == None
  {
    UnclaimedIffNone(index, k);
  }

  /** `_extract_abstract`: empty text for a missing or empty index, otherwise
      the surviving words in position order, joined by single spaces. */
  method ExtractAbstract(field: Option<IndexedAbstract>) returns (text: string)
    requires FieldNonNegative(field)
    ensures text == AbstractText(field)
    ensures field.None? || field.value.invertedIndex.None? || field.value.invertedIndex.value == [] ==> text == ""
  {
    if field.None? {
      return "";
    }
    match field.value.invertedIndex
    case None =>
      return "";
    case Some(index) =>
      if |index| == 0 {
        return "";
      }
      var words := FillSlots(index);
      text := Join(" ", KeepTruthy(words));
  }

  /** Every claimed position gets a slot, and that slot is filled. */
  lemma ClaimedPositionHasSlot(index: seq<Posting>, i: nat, k: nat)
    requires i < |index| && k in index[i].positions
    ensures k < |Slots(index)|
    ensures Slots(index)[k].Some?
  {
    UnclaimedIffNone(index, k);
  }

  /** When every position up to the largest is claimed by a non-empty word
      without spaces, splitting the rebuilt text on single spaces recovers,
      at each position, the word that claimed it last. */
  lemma DenseIndexRoundTrip(index: seq<Posting>)
    requires NonNegative(index)
    requires MaxPos(index) >= 0
    requires forall k :: 0 <= k <= MaxPos(index) ==>
               LastClaim(index, k).Some? && LastClaim(index, k).value != "" && ' ' !in LastClaim(index, k).value
    ensures |Split(AbstractText(Some(IndexedAbstract(Some(index)))), ' ')| == MaxPos(index) + 1
    ensures forall k :: 0 <= k <= MaxPos(index) ==>
              Split(AbstractText(Some(IndexedAbstract(Some(index)))), ' ')[k] == LastClaim(index, k).value
  {
    var slots := Slots(index);
    assert |slots| == MaxPos(index) + 1;
    assert forall k :: 0 <= k < |slots| ==> slots[k] == LastClaim(index, k);
    KeepTruthyAll(slots);
    var kept := KeepTruthy(slots);
    forall k | 0 <= k < |kept| ensures ' ' !in kept[k] && kept[k] == LastClaim(index, k).value {
      assert kept[k] == slots[k].value;
    }
    var text := AbstractText(Some(IndexedAbstract(Some(index))));
    assert text == Join(" ", kept);
    SplitJoin(kept, ' ');
    assert Split(text, ' ') == kept;
  }

  /** The three-word index of the repository's tests fills positions 0, 1
      and 2. */
  lemma ThreeWordSlots(index: seq<Posting>)
    requires index == [Posting("hello", [0]), Posting("world", [1]), Posting("finance", [2])]
    ensures Slots(index) == [Some("hello"), Some("world"), Some("finance")]
  {
    assert [0][..0] == [] && [1][..0] == [] && [2][..0] == [];
    assert MaxIn([0]) == 0 && MaxIn([1]) == 1 && MaxIn([2]) == 2;
    assert index[..1][..0] == [] && index[..2][..1] == index[..1];
    assert MaxPos(index[..1]) == 0;
    assert MaxPos(index[..2]) == 1;
    assert MaxPos(index) == 2;
    assert LastClaim(index[..1], 0) == Some("hello");
    assert LastClaim(index[..2], 1) == Some("world");
    assert LastClaim(index, 0) == Some("hello");
    assert LastClaim(index, 1) == Some("world");
    assert LastClaim(index, 2) == Some("finance");
  }

  lemma ThreeWordKept(slots: seq<Option<string>>)
    requires slots == [Some("hello"), Some("world"), Some("finance")]
    ensures KeepTruthy(slots) == ["hello", "world", "finance"]
  {
    assert slots[1..][1..][1..] == [];
    assert KeepTruthy(slots[1..][1..]) == ["finance"];
    assert KeepTruthy(slots[1..]) == ["world", "finance"];
  }

  lemma ThreeWordJoin(words: seq<string>)
    requires words == ["hello", "world", "finance"]
    ensures Join(" ", words) == "hello world finance"
  {
    assert words[1..] == ["world", "finance"];
    assert words[1..][1..] == ["finance"];
    assert Join(" ", words[1..][1..]) == "finance";
    assert Join(" ", words[1..]) == "world" + " " + "finance";
    assert Join(" ", words) == "hello" + " " + ("world" + " " + "finance");
  }

  /** The example of the repository's tests: three words at positions 0, 1
      and 2 read back in order. */
  lemma ThreeWordExample()
    ensures AbstractText(Some(IndexedAbstract(Some(
              [Posting("hello", [0]), Posting("world", [1]), Posting("finance", [2])]))))
            == "hello world finance"
  {
    var index := [Posting("hello", [0]), Posting("world", [1]), Posting("finance", [2])];
    ThreeWordSlots(index);
    ThreeWordKept(Slots(index));
    ThreeWordJoin(KeepTruthy(Slots(index)));
  }
}
