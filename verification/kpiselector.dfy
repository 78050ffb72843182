/** `handleToggle` of the KPI picker (src/App.jsx:417-419): clicking a KPI
    removes it from the visible list when it is shown and appends it when it
    is not. */
module KpiSelector {

  import opened Seqs

  /** The list without any occurrence of `k`, the others in order. */
  function Without(visible: seq<string>, k: string): seq<string>
  {
    Filter(visible, (x: string) => x != k)
  }

  /** `prev.includes(k) ? prev.filter(x => x !== k) : [...prev, k]`. */
  function Toggle(visible: seq<string>, k: string): seq<string>
  {
    if k in visible then Without(visible, k) else visible + [k]
  }

  /** The toggled key flips its visibility; every other key keeps its own. */
  lemma ToggleFlips(visible: seq<string>, k: string)
    ensures k in Toggle(visible, k) <==> k !in visible
    ensures forall x :: x != k ==> (x in Toggle(visible, k) <==> x in visible)
  {
    forall x ensures x in Without(visible, k) <==> x in visible && x != k {
      FilterMembership(visible, (y: string) => y != k, x);
    }
  }

  /** A hidden key shown and hidden again leaves the list as it was. */
  lemma ToggleTwiceHidden(visible: seq<string>, k: string)
    requires k !in visible
    ensures Toggle(Toggle(visible, k), k) == visible
  {
    var p := (x: string) => x != k;
    FilterSnoc(visible, k, p);
    FilterKeepsAll(visible, p);
  }

  /** A shown key hidden and shown again moves to the end of the list. */
  lemma ToggleTwiceShown(visible: seq<string>, k: string)
    requires k in visible
    ensures Toggle(Toggle(visible, k), k) == Without(visible, k) + [k]
  {
    FilterMembership(visible, (x: string) => x != k, k);
  }

  /** A list without duplicates stays without duplicates. */
  lemma ToggleKeepsDistinct(visible: seq<string>, k: string)
    requires Distinct(visible)
    ensures Distinct(Toggle(visible, k))
  {
    if k in visible {
      FilterDistinct(visible, (x: string) => x != k);
    }
  }
}
