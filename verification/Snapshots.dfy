/** The performance record the dashboard receives from the backend, after
    its date string has been turned into milliseconds (`getTime()`) and its
    portfolio string into a number (`Number(...)`). */
module Snapshots {
  import opened Wrappers

  /** `value` is `None` when `Number(netPortfolio)` is not finite;
      `modelName` is `model?.name`, `modelId` is `modelId`, each `None`
      when the field is absent. */
  datatype Snapshot = Snapshot(t: int, modelName: Option<string>, modelId: Option<string>, value: Option<real>)

  /** JavaScript `a || b` on an optional string: an absent or empty string
      falls through to `b`. */
  function OrElse(a: Option<string>, b: string): string {
    if a.Some? && a.value != "" then a.value else b
  }

  /** The group key `r.model?.name || r.modelId || "unknown"`. */
  function GroupKey(s: Snapshot): (k: string)
    ensures k != ""
    ensures k == "unknown" || Some(k) == s.modelName || Some(k) == s.modelId
    ensures s.modelName.Some? && s.modelName.value != "" ==> k == s.modelName.value
    ensures !(s.modelName.Some? && s.modelName.value != "") && s.modelId.Some? && s.modelId.value != "" ==> k == s.modelId.value
  {
    OrElse(s.modelName, OrElse(s.modelId, "unknown"))
  }

  /** The chart's series name `item.model?.name ?? item.modelId ?? "unknown"`:
      `??` falls through only on an absent field, so an empty name is kept. */
  function SeriesName(s: Snapshot): (n: string)
    ensures n == "unknown" || Some(n) == s.modelName || Some(n) == s.modelId
    ensures s.modelName.Some? ==> n == s.modelName.value
    ensures s.modelName.None? && s.modelId.Some? ==> n == s.modelId.value
  {
    s.modelName.GetOr(s.modelId.GetOr("unknown"))
  }

  /** The leaderboard and the chart name a snapshot alike unless the first
      present name field is the empty string. */
  lemma NameFallbacksAgree(s: Snapshot)
    ensures GroupKey(s) == SeriesName(s)
        <==> s.modelName != Some("") && !(s.modelName.None? && s.modelId == Some(""))
  {
  }
}
