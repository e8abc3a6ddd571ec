/** Spending the whole aggregate budget at one moment: the shortest runs that bring the limiter to its cap. */
module Burst {
  import opened Wrappers
  import opened FixedWindow
  import opened RateLimiter

  /** Two families, so that neither reaches a cap of its own before the last check. */
  function FamilyAt(k: nat): string {
    if k < 8 then "jpm" else "crm"
  }

  function CheckAt(k: nat): Request {
    Check(FamilyAt(k), None)
  }

  function FamiliesAfter(s: int, k: nat): map<string, FamilyState> {
    if k == 0 then map[]
    else if k <= 8 then map["jpm" := FamilyState(k, s, 0)]
    else map["jpm" := FamilyState(8, s, 0), "crm" := FamilyState(k - 8, s, 0)]
  }

  /** The state after k checks at time s, from a fresh window begun at w. */
  function After(w: int, s: int, k: nat): State {
    State(FamiliesAfter(s, k), [], k, if k > 0 && s - w >= WINDOW_MS then s else w)
  }

  /** Each of the twenty is granted. */
  lemma BurstStep(w: int, s: int, k: nat)
    requires 0 <= s && w <= s && k < AGGREGATE_CAP
    ensures CheckSpec(After(w, s, k), s, FamilyAt(k), None) == (After(w, s, k + 1), Allowed)
  {
    var st := After(w, s, k);
    var family := FamilyAt(k);
    var fs := RollFamily(FamilyOf(st, family, s), s);
    assert fs == FamilyState(if k < 8 then k else k - 8, s, 0);
    assert st.families[family := fs.(count := fs.count + 1)] == FamiliesAfter(s, k + 1);
  }
}
