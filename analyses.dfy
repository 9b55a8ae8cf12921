/** The `analyses` table that the gap and verification agents read and
    write. Each analysis type names one row: saving inserts it or, on a
    duplicate key, replaces its content, and reading returns the content
    of that type's row, or `None` when there is none. */
module Analyses {
  import opened Values

  const Survey := "Enhanced Literature Survey"
  const Gap := "Research Gap Analysis"
  const Proposal := "Future Research Proposal"
  const GapCheck := "Verification Report (Gap Analysis)"
  const ProposalCheck := "Verification Report (Future Proposal)"

  type Table = map<string, string>

  /** `get_analysis_from_db` / `get_analysis_to_verify`. */
  function Latest(t: Table, kind: string): (r: Option<string>)
    ensures r.Some? <==> kind in t
    ensures r.Some? ==> r.value == t[kind]
  {
    if kind in t then Some(t[kind]) else None
  }

  /** `save_final_analysis` / `save_verification_result`: insert, or update
      on a duplicate key. */
  function Saved(t: Table, kind: string, content: string): (r: Table)
    ensures Latest(r, kind) == Some(content)
    ensures forall k :: k != kind ==> Latest(r, k) == Latest(t, k)
  {
    t[kind := content]
  }
}
