/**
 The edit list that `ConvertUnicode` records while it re-encodes a string. The encodings are
 parameters: `decode(i)` is the character read at source index `i`.
 */
module UnicodeOffsets {
  import opened OffsetAdjuster

  /** How many source units a character takes, what is written for it, and whether it was valid. */
  datatype Character<T> = Character(consumed: nat, units: seq<T>, valid: bool)

  /** Every read consumes at least one unit and stays inside the source; every write produces one. */
  ghost predicate Reads<T>(decode: nat -> Character<T>, srcLen: nat) {
    forall i: nat :: i < srcLen ==> 1 <= decode(i).consumed <= srcLen - i && 1 <= |decode(i).units|
  }

  /** The units written for the source from the character boundary `i` on. */
  function Converted<T>(decode: nat -> Character<T>, i: nat, srcLen: nat): seq<T>
    requires Reads(decode, srcLen)
    decreases srcLen - i
  {
    if i >= srcLen then [] else decode(i).units + Converted(decode, i + decode(i).consumed, srcLen)
  }

  ghost predicate AllValid<T>(decode: nat -> Character<T>, i: nat, srcLen: nat)
    requires Reads(decode, srcLen)
    decreases srcLen - i
  {
    i < srcLen ==> decode(i).valid && AllValid(decode, i + decode(i).consumed, srcLen)
  }

  /** One adjustment for every character whose length changes. */
  function Recorded<T>(decode: nat -> Character<T>, i: nat, srcLen: nat): seq<Adjustment>
    requires Reads(decode, srcLen)
    decreases srcLen - i
  {
    if i >= srcLen then []
    else
      var c := decode(i);
      var rest := Recorded(decode, i + c.consumed, srcLen);
      if c.consumed != |c.units| then [Adjustment(i, c.consumed, |c.units|)] + rest else rest
  }

  method ConvertUnicode<T>(decode: nat -> Character<T>, srcLen: nat)
    returns (success: bool, output: seq<T>, adjustments: seq<Adjustment>)
    requires Reads(decode, srcLen)
    ensures output == Converted(decode, 0, srcLen)
    ensures adjustments == Recorded(decode, 0, srcLen)
    ensures success <==> AllValid(decode, 0, srcLen)
  {
    hide Converted, Recorded, AllValid;
    success, output, adjustments := true, [], [];
    var i := 0;
    while i < srcLen
      invariant i <= srcLen
      invariant Converted(decode, 0, srcLen) == output + Converted(decode, i, srcLen)
      invariant Recorded(decode, 0, srcLen) == adjustments + Recorded(decode, i, srcLen)
      invariant AllValid(decode, 0, srcLen) <==> success && AllValid(decode, i, srcLen)
    {
      ConvertedStep(decode, i, srcLen, output);
      RecordedStep(decode, i, srcLen, adjustments);
      var originalI := i;
      var c := decode(i);
      if !c.valid {
        success := false;
      }
      output := output + c.units;
      i := i + c.consumed;
      if i - originalI != |c.units| {
        adjustments := adjustments + [Adjustment(originalI, i - originalI, |c.units|)];
      }
    }
    NothingConverted(decode, i, srcLen, output, adjustments);
  }

  lemma ConvertedStep<T>(decode: nat -> Character<T>, i: nat, srcLen: nat, output: seq<T>)
    requires Reads(decode, srcLen) && i < srcLen
    ensures output + Converted(decode, i, srcLen)
            == (output + decode(i).units) + Converted(decode, i + decode(i).consumed, srcLen)
    ensures AllValid(decode, i, srcLen) <==> decode(i).valid && AllValid(decode, i + decode(i).consumed, srcLen)
  {
  }

  lemma RecordedStep<T>(decode: nat -> Character<T>, i: nat, srcLen: nat, adjustments: seq<Adjustment>)
    requires Reads(decode, srcLen) && i < srcLen
    ensures
      var c := decode(i);
      adjustments + Recorded(decode, i, srcLen)
      == (if c.consumed != |c.units| then adjustments + [Adjustment(i, c.consumed, |c.units|)] else adjustments)
         + Recorded(decode, i + c.consumed, srcLen)
  {
  }

  lemma NothingConverted<T>(
    decode: nat -> Character<T>, i: nat, srcLen: nat, output: seq<T>, adjustments: seq<Adjustment>)
    requires Reads(decode, srcLen) && i >= srcLen
    ensures output + Converted(decode, i, srcLen) == output
    ensures adjustments + Recorded(decode, i, srcLen) == adjustments && AllValid(decode, i, srcLen)
  {
  }

  /** Where the offset `p` of the source belongs in the output, walking character by character from `i`. */
  function Target<T>(decode: nat -> Character<T>, i: nat, srcLen: nat, p: nat): Offset
    requires Reads(decode, srcLen) && i <= p <= srcLen
    decreases srcLen - i
  {
    if p == i then At(0)
    else
      var c := decode(i);
      if p >= i + c.consumed then Moved(Target(decode, i + c.consumed, srcLen, p), |c.units|)
      else if c.consumed == |c.units| then At(p - i)
      else Npos
  }

  lemma {:induction false} RecordedIsSorted<T>(decode: nat -> Character<T>, i: nat, srcLen: nat, low: int)
    requires Reads(decode, srcLen) && low <= i
    ensures SortedFrom(Recorded(decode, i, srcLen), low)
    decreases srcLen - i
  {
    if i < srcLen {
      var c := decode(i);
      RecordedIsSorted(decode, i + c.consumed, srcLen, if c.consumed != |c.units| then i + c.consumed else low);
    }
  }

  /** The recorded list takes every offset from the boundary `i` on to where it belongs. */
  lemma {:induction false} RecordedFindsTargets<T>(decode: nat -> Character<T>, i: nat, srcLen: nat, p: nat)
    requires Reads(decode, srcLen) && i <= p <= srcLen
    ensures Adjusted(Recorded(decode, i, srcLen), p) == Moved(Target(decode, i, srcLen, p), i)
    decreases srcLen - i
  {
    if i < srcLen {
      var c := decode(i);
      var next := i + c.consumed;
      RecordedIsSorted(decode, next, srcLen, next);
      if next <= p {
        RecordedFindsTargets(decode, next, srcLen, p);
      }
    }
  }

  /** A character starts at source offset `p`, and what comes before it takes `q` output units. */
  ghost predicate IsBoundary<T>(decode: nat -> Character<T>, i: nat, srcLen: nat, p: nat, q: nat)
    requires Reads(decode, srcLen)
    decreases srcLen - i
  {
    || (p == i && q == 0)
    || (i < srcLen && q >= |decode(i).units|
        && IsBoundary(decode, i + decode(i).consumed, srcLen, p, q - |decode(i).units|))
  }

  lemma {:induction false} BoundaryIsTarget<T>(decode: nat -> Character<T>, i: nat, srcLen: nat, p: nat, q: nat)
    requires Reads(decode, srcLen) && i <= srcLen && IsBoundary(decode, i, srcLen, p, q)
    ensures i <= p <= srcLen && Target(decode, i, srcLen, p) == At(q)
    decreases srcLen - i
  {
    if !(p == i && q == 0) {
      BoundaryIsTarget(decode, i + decode(i).consumed, srcLen, p, q - |decode(i).units|);
    }
  }

  lemma {:induction false} InsideIsTarget<T>(decode: nat -> Character<T>, i: nat, srcLen: nat, p: nat, q: nat, r: nat)
    requires Reads(decode, srcLen) && i <= srcLen && IsBoundary(decode, i, srcLen, p, q)
    requires p < srcLen && p < r < p + decode(p).consumed
    ensures i <= p && r <= srcLen
    ensures Target(decode, i, srcLen, r) == if decode(p).consumed == |decode(p).units| then At(q + r - p) else Npos
    decreases srcLen - i
  {
    if !(p == i && q == 0) {
      InsideIsTarget(decode, i + decode(i).consumed, srcLen, p, q - |decode(i).units|, r);
    }
  }

  /** The start of every character, and the end of the string, is adjusted to where it is in the output. */
  lemma ConversionAdjustsBoundaries<T>(decode: nat -> Character<T>, srcLen: nat, p: nat, q: nat)
    requires Reads(decode, srcLen) && IsBoundary(decode, 0, srcLen, p, q)
    ensures Adjusted(Recorded(decode, 0, srcLen), p) == At(q)
  {
    BoundaryIsTarget(decode, 0, srcLen, p, q);
    RecordedFindsTargets(decode, 0, srcLen, p);
  }

  /**
   An offset inside a character is adjusted to npos exactly when the character changes its
   length, and otherwise moves along with the character.
   */
  lemma ConversionAdjustsInteriors<T>(decode: nat -> Character<T>, srcLen: nat, p: nat, q: nat, r: nat)
    requires Reads(decode, srcLen) && IsBoundary(decode, 0, srcLen, p, q)
    requires p < srcLen && p < r < p + decode(p).consumed
    ensures Adjusted(Recorded(decode, 0, srcLen), r)
         == if decode(p).consumed == |decode(p).units| then At(q + r - p) else Npos
  {
    InsideIsTarget(decode, 0, srcLen, p, q, r);
    RecordedFindsTargets(decode, 0, srcLen, r);
  }

  /** The recorded edits can be undone: no character vanishes and none comes from nothing. */
  lemma ConversionRoundTrips<T>(decode: nat -> Character<T>, srcLen: nat)
    requires Reads(decode, srcLen)
    ensures Sorted(Recorded(decode, 0, srcLen))
    ensures UnadjustUndoesAdjust(Recorded(decode, 0, srcLen)) && AdjustUndoesUnadjust(Recorded(decode, 0, srcLen))
  {
    RecordedIsSorted(decode, 0, srcLen, 0);
    RecordedLengthsArePositive(decode, 0, srcLen);
    RoundTrips(Recorded(decode, 0, srcLen));
  }

  lemma {:induction false} RecordedLengthsArePositive<T>(decode: nat -> Character<T>, i: nat, srcLen: nat)
    requires Reads(decode, srcLen)
    ensures forall a :: a in Recorded(decode, i, srcLen) ==> a.originalLength > 0 && a.outputLength > 0
    decreases srcLen - i
  {
    if i < srcLen {
      RecordedLengthsArePositive(decode, i + decode(i).consumed, srcLen);
    }
  }
}
