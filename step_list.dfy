/**
 * The list edits the sequence editors perform on their step vector, together
 * with the rule every editor follows for its selection (the index of the step
 * being edited): after an edit it must still denote the same step, or nothing.
 */
module StepList {
  import opened Wrappers

  /** `Vec::swap(i, j)`. */
  function Swap<T>(s: seq<T>, i: nat, j: nat): (r: seq<T>)
    requires i < |s| && j < |s|
    ensures |r| == |s| && r[i] == s[j] && r[j] == s[i]
    ensures forall k :: 0 <= k < |s| && k != i && k != j ==> r[k] == s[k]
  {
    s[i := s[j]][j := s[i]]
  }

  /** Swapping two entries keeps the same steps, only reordered. */
  lemma SwapPermutes<T>(s: seq<T>, i: nat, j: nat)
    requires i < |s| && j < |s|
    ensures multiset(Swap(s, i, j)) == multiset(s)
    ensures Swap(Swap(s, i, j), i, j) == s
  {
    var t := s[i := s[j]];
    assert multiset(t) == multiset(s) - multiset{s[i]} + multiset{s[j]};
    assert multiset(t[j := s[i]]) == multiset(t) - multiset{t[j]} + multiset{s[i]};
  }

  /** Where a selection ends up when entries `i` and `j` trade places. */
  function SwapSelection(sel: Option<nat>, i: nat, j: nat): Option<nat> {
    match sel
    case None => None
    case Some(k) => if k == i then Some(j) else if k == j then Some(i) else Some(k)
  }

  /** After a swap the selection still denotes the step it denoted before. */
  lemma SwapKeepsSelection<T>(s: seq<T>, i: nat, j: nat, sel: Option<nat>)
    requires i < |s| && j < |s|
    requires sel.Some? && sel.value < |s|
    ensures SwapSelection(sel, i, j).Some? && SwapSelection(sel, i, j).value < |s|
    ensures Swap(s, i, j)[SwapSelection(sel, i, j).value] == s[sel.value]
  {
  }

  /** `Vec::remove(i)`: the entry at `i` is gone and the later ones move down by one. */
  function RemoveAt<T>(s: seq<T>, i: nat): (r: seq<T>)
    requires i < |s|
    ensures |r| == |s| - 1
    ensures forall k :: 0 <= k < i ==> r[k] == s[k]
    ensures forall k :: i <= k < |r| ==> r[k] == s[k + 1]
  {
    s[..i] + s[i + 1..]
  }

  /** Removing an entry removes exactly that one step. */
  lemma RemovePermutes<T>(s: seq<T>, i: nat)
    requires i < |s|
    ensures multiset(RemoveAt(s, i)) + multiset{s[i]} == multiset(s)
  {
    assert s == s[..i] + [s[i]] + s[i + 1..];
  }

  /** The selection after removing entry `i`: cleared if it was `i`, moved down if it was after `i`. */
  function RemoveSelection(sel: Option<nat>, i: nat): Option<nat> {
    match sel
    case None => None
    case Some(k) => if k == i then None else if k > i then Some(k - 1) else Some(k)
  }

  /** After a removal the selection denotes the same step, or nothing when that step was removed. */
  lemma RemoveKeepsSelection<T>(s: seq<T>, i: nat, sel: Option<nat>)
    requires i < |s|
    requires sel.Some? && sel.value < |s|
    ensures RemoveSelection(sel, i).None? <==> sel.value == i
    ensures RemoveSelection(sel, i).Some? ==>
      RemoveSelection(sel, i).value < |RemoveAt(s, i)| &&
      RemoveAt(s, i)[RemoveSelection(sel, i).value] == s[sel.value]
  {
  }

  /* ------------------------- Default step names ------------------------- */

  function DigitChar(d: nat): (c: char)
    requires d < 10
    ensures '0' <= c <= '9' && c as int - '0' as int == d
  {
    ('0' as int + d) as char
  }

  /** `format!("{}", n)` for a non-negative integer. */
  function NatToString(n: nat): (r: string)
    ensures |r| >= 1 && forall c :: c in r ==> '0' <= c <= '9'
    decreases n
  {
    if n < 10 then [DigitChar(n)] else NatToString(n / 10) + [DigitChar(n % 10)]
  }

  /** The value the decimal digits of `s` denote. */
  function DigitsValue(s: string): int
    decreases |s|
  {
    if s == [] then 0 else 10 * DigitsValue(s[..|s| - 1]) + (s[|s| - 1] as int - '0' as int)
  }

  /** The decimal text reads back as the number it was made from. */
  lemma {:induction false} NatToStringValue(n: nat)
    ensures DigitsValue(NatToString(n)) == n
    decreases n
  {
    if n >= 10 {
      NatToStringValue(n / 10);
      var r, q := NatToString(n), NatToString(n / 10);
      assert r == q + [DigitChar(n % 10)];
      assert r[..|r| - 1] == q && r[|r| - 1] == DigitChar(n % 10);
      assert DigitsValue(r) == 10 * (n / 10) + n % 10;
    } else {
      assert [DigitChar(n)][..0] == [];
    }
  }

  /** `format!("Step {}", n)`. */
  function StepName(n: nat): (r: string)
    ensures |r| > 5 && r[..5] == "Step " && DigitsValue(r[5..]) == n
  {
    NatToStringValue(n);
    assert ("Step " + NatToString(n))[5..] == NatToString(n);
    "Step " + NatToString(n)
  }

  lemma StepNameExamples()
    ensures StepName(1) == "Step 1"
    ensures StepName(12) == "Step 12"
  {
    assert NatToString(1) == "1";
    assert NatToString(12) == NatToString(1) + "2";
  }
}
