/** The validator body built by `make_newline_validator`: pad a text field with line breaks. */
module NewlineRule {
  import opened Text

  /** `k * "\n"`. */
  function Newlines(k: nat): (s: string)
    ensures |s| == k
    ensures forall i :: 0 <= i < k ==> s[i] == '\n'
  {
    if k == 0 then [] else Newlines(k - 1) + ['\n']
  }

  /** A string of k line breaks holds exactly k of them. */
  lemma {:induction false} CountNewlines(k: nat)
    ensures Count(Newlines(k), '\n') == k
  {
    if k > 0 {
      CountNewlines(k - 1);
      CountConcat(Newlines(k - 1), ['\n'], '\n');
    }
  }

  /**
   * `field_must_contain_newlines` with `req_newlines = req`: when `v` has fewer than `req`
   * line breaks the missing ones are appended, otherwise `v` comes back unchanged.
   * The result holds exactly max(count, req) line breaks, starts with `v` and adds only line breaks.
   */
  function EnsureNewlines(v: string, req: int): (r: string)
    ensures Count(r, '\n') == if Count(v, '\n') < req then req else Count(v, '\n')
    ensures |r| >= |v| && r[..|v|] == v
    ensures forall i :: |v| <= i < |r| ==> r[i] == '\n'
    ensures Count(v, '\n') >= req ==> r == v
  {
    var have := Count(v, '\n');
    if have < req then
      CountNewlines(req - have);
      CountConcat(v, Newlines(req - have), '\n');
      v + Newlines(req - have)
    else v
  }

  /** Applying the rule a second time changes nothing. */
  lemma EnsureNewlinesIdempotent(v: string, req: int)
    ensures EnsureNewlines(EnsureNewlines(v, req), req) == EnsureNewlines(v, req)
  {
  }
}
