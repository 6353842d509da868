/**
 * The next assignment id offered on the staff page (pages/staff.py): ids of
 * the form "A" followed by decimal digits are counted, and the next id is
 * "A" followed by one more than the largest counted number, or "A1" when
 * none is counted.
 */
module Staff {
  import opened Text

  /** The id starts with "A" and what follows is a non-empty run of decimal digits. */
  predicate Counted(aid: string) {
    StartsWith(aid, "A") && IsDigits(aid[1..])
  }

  /** The number written after the "A" of a counted id. */
  function NumberOf(aid: string): nat
    requires Counted(aid)
  {
    DigitsValue(aid[1..])
  }

  /** The numbers of the counted ids, in the order of the assignments. */
  function CountedNumbers(ids: seq<string>): (nums: seq<nat>)
    ensures forall k :: 0 <= k < |nums| ==> exists i :: 0 <= i < |ids| && Counted(ids[i]) && nums[k] == NumberOf(ids[i])
    ensures forall i :: 0 <= i < |ids| && Counted(ids[i]) ==> NumberOf(ids[i]) in nums
    ensures nums == [] <==> forall i :: 0 <= i < |ids| ==> !Counted(ids[i])
  {
    if ids == [] then []
    else
      var front := ids[..|ids| - 1];
      var last := ids[|ids| - 1];
      var rest := CountedNumbers(front);
      assert forall i :: 0 <= i < |front| ==> front[i] == ids[i];
      rest + if Counted(last) then [NumberOf(last)] else []
  }

  /** The last element once the numbers are sorted: the largest number. */
  function Largest(nums: seq<nat>): (m: nat)
    requires nums != []
    ensures m in nums
    ensures forall k :: 0 <= k < |nums| ==> nums[k] <= m
  {
    if |nums| == 1 then nums[0]
    else
      var m := Largest(nums[1..]);
      assert forall k :: 1 <= k < |nums| ==> nums[k] == nums[1..][k - 1];
      if nums[0] > m then nums[0] else m
  }

  /** The id proposed for a new assignment, given the ids of the existing ones. */
  function NextAssignmentId(ids: seq<string>): string {
    var nums := CountedNumbers(ids);
    if nums == [] then "A1" else "A" + NatToString(Largest(nums) + 1)
  }

  /** "A" followed by the decimal form of a number is a counted id with that number. */
  lemma PrefixedNumberIsCounted(n: nat)
    ensures Counted("A" + NatToString(n)) && NumberOf("A" + NatToString(n)) == n
  {
    NatToStringRoundTrip(n);
    var aid := "A" + NatToString(n);
    assert aid[1..] == NatToString(n);
  }

  /**
   * The proposed id is itself counted, its number exceeds every counted
   * number, and so it differs from every existing id.
   */
  lemma NextIdIsFresh(ids: seq<string>)
    ensures Counted(NextAssignmentId(ids))
    ensures forall i :: 0 <= i < |ids| && Counted(ids[i]) ==> NumberOf(ids[i]) < NumberOf(NextAssignmentId(ids))
    ensures NextAssignmentId(ids) !in ids
  {
    var nums := CountedNumbers(ids);
    var next := NextAssignmentId(ids);
    if nums == [] {
      PrefixedNumberIsCounted(1);
      assert next == "A" + NatToString(1);
    } else {
      PrefixedNumberIsCounted(Largest(nums) + 1);
    }
  }

  /**
   * With no counted id the proposal is "A1"; otherwise it is "A" and one
   * more than the number of a counted id whose number is the largest.
   */
  lemma NextIdNumber(ids: seq<string>)
    ensures (forall i :: 0 <= i < |ids| ==> !Counted(ids[i])) ==> NextAssignmentId(ids) == "A1"
    ensures (exists i :: 0 <= i < |ids| && Counted(ids[i])) ==>
      exists i :: 0 <= i < |ids| && Counted(ids[i])
        && (forall j :: 0 <= j < |ids| && Counted(ids[j]) ==> NumberOf(ids[j]) <= NumberOf(ids[i]))
        && NextAssignmentId(ids) == "A" + NatToString(NumberOf(ids[i]) + 1)
  {
    var nums := CountedNumbers(ids);
    if nums != [] {
      var m := Largest(nums);
      var k :| 0 <= k < |nums| && nums[k] == m;
      var i :| 0 <= i < |ids| && Counted(ids[i]) && nums[k] == NumberOf(ids[i]);
      forall j | 0 <= j < |ids| && Counted(ids[j]) ensures NumberOf(ids[j]) <= m {
        var kj :| 0 <= kj < |nums| && nums[kj] == NumberOf(ids[j]);
      }
      assert NextAssignmentId(ids) == "A" + NatToString(m + 1);
      assert m == NumberOf(ids[i]);
    }
  }

  /** A bare "A" and ids with a non-digit after the "A" are not counted. */
  lemma OnlyDigitSuffixesCount()
    ensures !Counted("A")
    ensures NextAssignmentId(["A", "B7", "A2x"]) == "A1"
  {
    assert !Counted("B7") by { assert "B7"[..1][0] == 'B'; }
    assert !Counted("A2x") by { assert !IsDigit("A2x"[1..][1]); }
    assert CountedNumbers(["A", "B7", "A2x"]) == [];
  }
}
