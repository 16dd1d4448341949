/** Patching Java source in front of an anchor that must stand in it once. */
module JavaPatch {
  import opened Optional
  import PyString

  // ---------------------------------------------------------------- occurrences

  predicate OccursAt(text: string, word: string, i: int) {
    0 <= i && i + |word| <= |text| && text[i..i + |word|] == word
  }

  /** The leftmost occurrence from `from` on. */
  function FirstFrom(text: string, word: string, from: nat): (r: Option<nat>)
    requires from <= |text|
    ensures r.Some? ==> from <= r.value && OccursAt(text, word, r.value)
    ensures forall i :: from <= i < (if r.Some? then r.value else |text| + 1) ==> !OccursAt(text, word, i)
    decreases |text| - from
  {
    if OccursAt(text, word, from) then Some(from)
    else if from == |text| then None
    else FirstFrom(text, word, from + 1)
  }

  /** Occurrences counted from the left, none overlapping the one before. */
  function CountFrom(text: string, word: string, from: nat): nat
    requires word != "" && from <= |text|
    decreases |text| - from
  {
    match FirstFrom(text, word, from)
    case None => 0
    case Some(i) => 1 + CountFrom(text, word, i + |word|)
  }

  function AnchorCount(text: string, anchor: string): nat {
    if anchor == "" then |text| + 1 else CountFrom(text, anchor, 0)
  }

  /** Every occurrence in `text`, overlapping or not, is at `i`. */
  ghost predicate OnlyAt(text: string, word: string, i: int) {
    OccursAt(text, word, i) && forall j :: OccursAt(text, word, j) ==> j == i
  }

  /** No part of the word that starts later repeats its beginning up to its end. */
  ghost predicate Borderless(word: string) {
    forall k :: 0 < k < |word| ==> word[k..] != word[..|word| - k]
  }

  lemma OverlapIsBorder(text: string, word: string, i: int, j: int)
    requires OccursAt(text, word, i) && OccursAt(text, word, j) && i < j < i + |word|
    ensures !Borderless(word)
  {
    var k := j - i;
    assert word[k..] == text[j..i + |word|] by {
      assert text[i..i + |word|][k..] == text[j..i + |word|];
    }
    assert word[..|word| - k] == text[j..i + |word|] by {
      assert text[j..j + |word|][..|word| - k] == text[j..i + |word|];
    }
  }

  /** Counting once means: the leftmost occurrence, and none that starts after its end. */
  lemma CountedOnce(text: string, word: string)
    requires word != ""
    ensures CountFrom(text, word, 0) == 1
            <==> FirstFrom(text, word, 0).Some?
                 && forall j :: j >= FirstFrom(text, word, 0).value + |word| ==> !OccursAt(text, word, j)
  {
    var first := FirstFrom(text, word, 0);
    if first.Some? {
      var next := FirstFrom(text, word, first.value + |word|);
      assert next.Some? ==> OccursAt(text, word, next.value);
    }
  }

  /** For a word that cannot overlap itself, counting once is occurring once. */
  lemma BorderlessCountsAll(text: string, word: string)
    requires word != "" && Borderless(word)
    ensures CountFrom(text, word, 0) == 1
            <==> FirstFrom(text, word, 0).Some? && OnlyAt(text, word, FirstFrom(text, word, 0).value)
  {
    CountedOnce(text, word);
    var first := FirstFrom(text, word, 0);
    if first.Some? {
      forall j | OccursAt(text, word, j) && j < first.value + |word| ensures j == first.value {
        if j > first.value {
          OverlapIsBorder(text, word, first.value, j);
        }
      }
    }
  }

  /** A word that overlaps itself by all but `k` characters occurs twice in this text but counts once. */
  lemma BorderCountsOnce(word: string, k: nat)
    requires 0 < k < |word| && word[k..] == word[..|word| - k]
    ensures var text := word[..k] + word;
            CountFrom(text, word, 0) == 1 && OccursAt(text, word, 0) && OccursAt(text, word, k)
  {
    var text := word[..k] + word;
    assert text[k..k + |word|] == word;
    assert text[0..|word|] == word by {
      assert text[0..|word|] == word[..k] + word[..|word| - k];
      assert word == word[..k] + word[k..];
    }
    assert FirstFrom(text, word, 0) == Some(0);
    CountedOnce(text, word);
  }

  /** The ambiguity test admits only anchors that occur once, in every text, exactly when the anchor is borderless. */
  lemma AmbiguityTestIsExact(word: string)
    requires word != ""
    ensures Borderless(word)
            <==> forall text :: AnchorCount(text, word) == 1 ==> exists i :: OnlyAt(text, word, i)
  {
    if Borderless(word) {
      forall text | AnchorCount(text, word) == 1 ensures exists i :: OnlyAt(text, word, i) {
        BorderlessCountsAll(text, word);
        assert OnlyAt(text, word, FirstFrom(text, word, 0).value);
      }
    } else {
      var k :| 0 < k < |word| && word[k..] == word[..|word| - k];
      BorderCountsOnce(word, k);
      var text := word[..k] + word;
      assert AnchorCount(text, word) == 1;
      assert forall i :: !OnlyAt(text, word, i);
    }
  }

  // ---------------------------------------------------------------- one patch

  datatype PatchResult = Patched(text: string) | TargetNotFound | AnchorNotFound | AnchorAmbiguous(count: nat)

  /** The line a kept-anchor patch adds. */
  function Line(patch: string): string {
    PyString.Strip(patch) + "\n    "
  }

  function Replacement(anchor: string, patch: string, keepAnchor: bool): string {
    if keepAnchor then Line(patch) + anchor else PyString.Strip(patch)
  }

  function PatchText(text: string, anchor: string, patch: string, keepAnchor: bool): PatchResult {
    var count := AnchorCount(text, anchor);
    if count == 0 then AnchorNotFound
    else if count > 1 then AnchorAmbiguous(count)
    else
      match FirstFrom(text, anchor, 0)
      case Some(i) => Patched(text[..i] + Replacement(anchor, patch, keepAnchor) + text[i + |anchor|..])
      case None => AnchorNotFound
  }

  /** `updated` is `text` with its leftmost `anchor`, at `i`, replaced. */
  ghost predicate ReplacedAt(text: string, anchor: string, i: nat, replacement: string, updated: string) {
    && OccursAt(text, anchor, i) && (forall j :: 0 <= j < i ==> !OccursAt(text, anchor, j))
    && updated == text[..i] + replacement + text[i + |anchor|..]
  }

  /** The trimmed patch `t` stands at `i` for the leftmost anchor, or on a line of its own before it. */
  ghost predicate PatchedAt(text: string, anchor: string, i: nat, t: string, keepAnchor: bool, updated: string) {
    ReplacedAt(text, anchor, i, if keepAnchor then t + "\n    " + anchor else t, updated)
  }

  /** The anchor occurs again after its leftmost occurrence ends; the empty one, at another place. */
  ghost predicate OccursAgain(text: string, anchor: string) {
    if anchor == "" then text != ""
    else exists i: nat, j: nat :: OccurApart(text, anchor, i, j)
  }

  ghost predicate OccurApart(text: string, anchor: string, i: nat, j: nat) {
    OccursAt(text, anchor, i) && OccursAt(text, anchor, j) && i + |anchor| <= j
  }

  lemma AgainExactly(text: string, anchor: string)
    ensures OccursAgain(text, anchor) <==> AnchorCount(text, anchor) > 1
  {
    if anchor != "" {
      CountedOnce(text, anchor);
      var first := FirstFrom(text, anchor, 0);
      if first.Some? {
        var next := FirstFrom(text, anchor, first.value + |anchor|);
        if next.Some? {
          assert OccurApart(text, anchor, first.value, next.value);
        }
      }
      if i: nat, j: nat :| OccurApart(text, anchor, i, j) {
        assert first.Some? && first.value <= i;
      }
    }
  }

  /** Each place is the leftmost occurrence from where the one before it ends, and there is none after them. */
  ghost predicate PlacesFrom(text: string, word: string, from: nat, places: seq<nat>)
    decreases |places|
  {
    if places == [] then forall i :: i >= from ==> !OccursAt(text, word, i)
    else
      && from <= places[0] && OccursAt(text, word, places[0])
      && (forall i :: from <= i < places[0] ==> !OccursAt(text, word, i))
      && PlacesFrom(text, word, places[0] + |word|, places[1..])
  }

  /** The count is that of the occurrences met from the left without overlap. */
  lemma {:induction false} CountsPlaces(text: string, word: string, from: nat) returns (places: seq<nat>)
    requires word != "" && from <= |text|
    ensures |places| == CountFrom(text, word, from) && PlacesFrom(text, word, from, places)
    decreases |text| - from
  {
    match FirstFrom(text, word, from)
    case None =>
      places := [];
    case Some(i) =>
      var rest := CountsPlaces(text, word, i + |word|);
      places := [i] + rest;
  }

  /** A missing anchor is one that occurs nowhere; an accepted one is replaced where it stands first. */
  lemma PatchTextIsRight(text: string, anchor: string, patch: string, keepAnchor: bool)
    ensures var result := PatchText(text, anchor, patch, keepAnchor);
            && (result.AnchorNotFound? <==> forall i :: !OccursAt(text, anchor, i))
            && (result.AnchorAmbiguous? <==> OccursAgain(text, anchor))
            && (result.Patched? ==> exists i: nat, t: string ::
                  PyString.TrimsTo(patch, t) && PatchedAt(text, anchor, i, t, keepAnchor, result.text))
  {
    AgainExactly(text, anchor);
    PyString.StripTrims(patch);
    var first := FirstFrom(text, anchor, 0);
    if anchor == "" {
      assert OccursAt(text, anchor, 0);
    }
    if first.Some? && AnchorCount(text, anchor) == 1 {
      var i, t := first.value, PyString.Strip(patch);
      assert PatchedAt(text, anchor, i, t, keepAnchor, PatchText(text, anchor, patch, keepAnchor).text);
    }
  }

  class JavaFile {
    var content: Option<string>

    constructor (content: Option<string>)
      ensures this.content == content
    {
      this.content := content;
    }

    /** Patches the file in place; anything but success leaves it as it was. */
    method MaterializeJavaPatch(anchor: string, patch: string, keepAnchor: bool) returns (result: PatchResult)
      modifies this
      ensures old(content).None? ==> result == TargetNotFound
      ensures old(content).Some? ==> result == PatchText(old(content).value, anchor, patch, keepAnchor)
      ensures content == if result.Patched? then Some(result.text) else old(content)
    {
      if content.None? {
        return TargetNotFound;
      }
      var text := content.value;
      var count := AnchorCount(text, anchor);
      if count == 0 {
        return AnchorNotFound;
      }
      if count > 1 {
        return AnchorAmbiguous(count);
      }
      CountedOnceIsFound(text, anchor);
      var at := FirstFrom(text, anchor, 0).value;
      content := Some(text[..at] + Replacement(anchor, patch, keepAnchor) + text[at + |anchor|..]);
      result := Patched(content.value);
    }
  }

  lemma CountedOnceIsFound(text: string, anchor: string)
    requires AnchorCount(text, anchor) == 1
    ensures FirstFrom(text, anchor, 0).Some?
  {
  }

  // ---------------------------------------------------------------- repeated patches

  /** The text after patches that were all accepted, each keeping the anchor. */
  function PatchAll(text: string, anchor: string, patches: seq<string>): Option<string>
    decreases |patches|
  {
    if patches == [] then Some(text)
    else
      match PatchAll(text, anchor, patches[..|patches| - 1])
      case None => None
      case Some(before) =>
        match PatchText(before, anchor, patches[|patches| - 1], true)
        case Patched(after) => Some(after)
        case _ => None
  }

  /** The patches in order, each on its own line. */
  function Stack(patches: seq<string>): string {
    if patches == [] then ""
    else Stack(patches[..|patches| - 1]) + Line(patches[|patches| - 1])
  }

  /** Any accepted patch that keeps its anchor only adds a line, directly before the leftmost anchor. */
  lemma AcceptedOnlyAdds(text: string, anchor: string, patch: string)
    requires PatchText(text, anchor, patch, true).Patched?
    ensures exists i: nat :: OccursAt(text, anchor, i) && (forall j :: 0 <= j < i ==> !OccursAt(text, anchor, j))
                             && PatchText(text, anchor, patch, true) == Patched(text[..i] + Line(patch) + text[i..])
  {
    var i := FirstFrom(text, anchor, 0).value;
    assert text[i..] == anchor + text[i + |anchor|..];
    var p := Line(patch);
    assert text[..i] + (p + anchor) + text[i + |anchor|..] == text[..i] + p + (anchor + text[i + |anchor|..]);
  }

  /** If the patch is accepted, it lands directly before this anchor. */
  ghost predicate GoesBefore(front: string, anchor: string, back: string, patch: string) {
    var result := PatchText(front + anchor + back, anchor, patch, true);
    result.Patched? ==> result.text == front + Line(patch) + anchor + back
  }

  lemma AcceptedGoesBefore(front: string, anchor: string, back: string, patch: string)
    requires anchor != "" && Borderless(anchor)
    ensures GoesBefore(front, anchor, back, patch)
  {
    hide FirstFrom, CountFrom, Borderless;
    var text := front + anchor + back;
    if PatchText(text, anchor, patch, true).Patched? {
      BorderlessCountsAll(text, anchor);
      assert text[|front|..|front| + |anchor|] == anchor;
      assert OccursAt(text, anchor, |front|);
      assert FirstFrom(text, anchor, 0) == Some(|front|);
      assert text[..|front|] == front && text[|front| + |anchor|..] == back;
      var p := Line(patch);
      assert front + (p + anchor) + back == front + p + anchor + back;
    }
  }

  /** A patch that starts differently from the anchor. */
  function Stranger(anchor: string): (patch: string)
    requires anchor != ""
  {
    if anchor[0] == 'x' then "y" else "x"
  }

  lemma BorderedGoesElsewhere(anchor: string, k: nat)
    requires 0 < k < |anchor| && anchor[k..] == anchor[..|anchor| - k]
    ensures PatchText(anchor[..k] + anchor + "", anchor, Stranger(anchor), true).Patched?
    ensures !GoesBefore(anchor[..k], anchor, "", Stranger(anchor))
  {
    var front, patch := anchor[..k], Stranger(anchor);
    var text := front + anchor;
    assert front + anchor + "" == text;
    BorderCountsOnce(anchor, k);
    assert FirstFrom(text, anchor, 0) == Some(0);
    assert PyString.Strip(patch) == patch;
    assert PatchText(text, anchor, patch, true).text[0] == patch[0];
    assert (front + Line(patch) + anchor + "")[0] == anchor[0];
  }

  /** Accepted patches always land before the anchor meant exactly when the anchor is borderless. */
  lemma GoesBeforeExactly(anchor: string)
    requires anchor != ""
    ensures Borderless(anchor) <==> forall front, back, patch :: GoesBefore(front, anchor, back, patch)
  {
    hide GoesBefore;
    if Borderless(anchor) {
      forall front, back, patch ensures GoesBefore(front, anchor, back, patch) {
        AcceptedGoesBefore(front, anchor, back, patch);
      }
    } else {
      var k :| 0 < k < |anchor| && anchor[k..] == anchor[..|anchor| - k];
      BorderedGoesElsewhere(anchor, k);
    }
  }

  /** If all the patches are accepted, they pile up in order before this anchor and touch nothing else. */
  ghost predicate Accumulate(front: string, anchor: string, back: string, patches: seq<string>) {
    var result := PatchAll(front + anchor + back, anchor, patches);
    result.Some? ==> result.value == front + Stack(patches) + anchor + back
  }

  lemma {:induction false} AcceptedPatchesAccumulate(front: string, anchor: string, back: string, patches: seq<string>)
    requires anchor != "" && Borderless(anchor)
    ensures Accumulate(front, anchor, back, patches)
    decreases |patches|
  {
    hide PatchText, Borderless;
    if patches == [] {
      assert front + "" == front;
    } else {
      var n := |patches| - 1;
      AcceptedPatchesAccumulate(front, anchor, back, patches[..n]);
      AcceptedGoesBefore(front + Stack(patches[..n]), anchor, back, patches[n]);
      var p := Line(patches[n]);
      assert front + Stack(patches[..n]) + p == front + (Stack(patches[..n]) + p);
    }
  }

  lemma OnePatch(text: string, anchor: string, patch: string)
    ensures PatchAll(text, anchor, [patch])
            == match PatchText(text, anchor, patch, true) case Patched(after) => Some(after) case _ => None
    ensures Stack([patch]) == Line(patch)
  {
    assert [patch][..0] == [];
    assert "" + Line(patch) == Line(patch);
  }

  /** Accepted patches always accumulate exactly when the anchor is borderless. */
  lemma AccumulateExactly(anchor: string)
    requires anchor != ""
    ensures Borderless(anchor) <==> forall front, back, patches :: Accumulate(front, anchor, back, patches)
  {
    hide PatchText, PatchAll, Stack, Line;
    if Borderless(anchor) {
      forall front, back, patches ensures Accumulate(front, anchor, back, patches) {
        AcceptedPatchesAccumulate(front, anchor, back, patches);
      }
    } else {
      var k :| 0 < k < |anchor| && anchor[k..] == anchor[..|anchor| - k];
      var front, patch := anchor[..k], Stranger(anchor);
      BorderedGoesElsewhere(anchor, k);
      OnePatch(front + anchor + "", anchor, patch);
      assert !Accumulate(front, anchor, "", [patch]);
    }
  }
}
