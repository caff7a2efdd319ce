/** toggle.go: a toggler cycling through a fixed list of values. */
module Toggles {
  import opened Outcomes
  import opened DivMod

  /** The position reached after `k` switches through `n` values. */
  function PositionAfter(n: nat, k: nat): (p: nat)
    requires n > 0
    ensures p < n
  {
    k % n
  }

  /** One more switch moves one position on, wrapping at the end. */
  lemma PositionStep(n: nat, k: nat)
    requires n > 0
    ensures PositionAfter(n, k + 1) == (PositionAfter(n, k) + 1) % n
  {
    var q := k / n;
    assert k == q * n + k % n;
    if k % n + 1 < n {
      ModUnique(k + 1, n, q, k % n + 1);
      ModUnique(k % n + 1, n, 0, k % n + 1);
    } else {
      ModUnique(k + 1, n, q + 1, 0);
      ModUnique(n, n, 1, 0);
    }
  }

  /** After as many switches as there are values, the toggler is back where
    * it was. */
  lemma PositionPeriodic(n: nat, k: nat)
    requires n > 0
    ensures PositionAfter(n, k + n) == PositionAfter(n, k)
  {
    var q := k / n;
    assert k == q * n + k % n;
    ModUnique(k + n, n, q + 1, k % n);
  }

  /** toggleValue: the values and the index of the current one. `switches`
    * counts the successful calls of Switch. */
  class Toggle<T> {
    var values: seq<T>
    var currentIdx: int
    ghost var switches: nat

    /** The index is the number of switches modulo the number of values. */
    ghost predicate Valid()
      reads this
    {
      if |values| == 0 then currentIdx == 0
      else currentIdx == PositionAfter(|values|, switches)
    }

    /** UseToggle: start at the first value. */
    constructor UseToggle(value: seq<T>)
      ensures values == value && currentIdx == 0 && switches == 0
      ensures Valid()
    {
      values := value;
      currentIdx := 0;
      switches := 0;
    }

    /** Value: the current value; with no values the index is out of range. */
    function Value(): (r: Outcome<T>)
      reads this
      requires Valid()
      ensures r.Done? <==> |values| > 0
      ensures r.Done? ==> r.value == values[PositionAfter(|values|, switches)]
    {
      if 0 <= currentIdx < |values| then Done(values[currentIdx])
      else Panic("index out of range")
    }

    /** Switch: advance one position, wrapping around, and return the new
      * value. With no values the modulo divides by zero and nothing
      * changes. */
    method Switch() returns (r: Outcome<T>)
      requires Valid()
      modifies this
      ensures Valid() && values == old(values)
      ensures |values| == 0 ==> r.Panic? && currentIdx == old(currentIdx) && switches == old(switches)
      ensures |values| > 0 ==> switches == old(switches) + 1 && currentIdx == (old(currentIdx) + 1) % |values|
      ensures |values| > 0 ==> r == Value()
    {
      if |values| == 0 {
        return Panic("integer divide by zero");
      }
      PositionStep(|values|, switches);
      currentIdx := (currentIdx + 1) % |values|;
      switches := switches + 1;
      r := Value();
    }
  }

  /** The toggle test: through 1..9, four switches reach 5. */
  method FourSwitches() returns (r: Outcome<int>)
    ensures r == Done(5)
  {
    var t := new Toggle.UseToggle([1, 2, 3, 4, 5, 6, 7, 8, 9]);
    r := t.Switch();
    r := t.Switch();
    r := t.Switch();
    r := t.Switch();
  }

  /** The toggle test: between "on" and "off", every second switch is back
    * at "on". */
  method OnOff() returns (first: Outcome<string>, second: Outcome<string>)
    ensures first == Done("off") && second == Done("on")
  {
    var t := new Toggle.UseToggle(["on", "off"]);
    first := t.Switch();
    second := t.Switch();
  }
}
