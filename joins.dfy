/**
 * The prompt join nodes (prompt_tools_311.py lines 144 and 162): the
 * inputs are concatenated in order, a missing input counting as the empty
 * prompt.
 */
module Joins {
  import opened Wrappers

  /** `(prompt_left or "") + (prompt_right or "")` */
  function PromptJoin(left: Option<string>, right: Option<string>): (r: string)
    ensures |r| == |OrEmpty(left)| + |OrEmpty(right)|
    ensures r[..|OrEmpty(left)|] == OrEmpty(left) && r[|OrEmpty(left)|..] == OrEmpty(right)
  {
    OrEmpty(left) + OrEmpty(right)
  }

  /** `(prompt_left or "") + (prompt_middle or "") + (prompt_right or "")` */
  function PromptJoinThree(left: Option<string>, middle: Option<string>, right: Option<string>): (r: string)
    ensures var l, m := |OrEmpty(left)|, |OrEmpty(middle)|;
      && |r| == l + m + |OrEmpty(right)|
      && r[..l] == OrEmpty(left)
      && r[l..l + m] == OrEmpty(middle)
      && r[l + m..] == OrEmpty(right)
  {
    OrEmpty(left) + OrEmpty(middle) + OrEmpty(right)
  }

  /**
   * The join is the only prompt that starts with the left input and
   * continues with the right one.
   */
  lemma JoinIsUnique(left: Option<string>, right: Option<string>, r: string)
    requires |r| == |OrEmpty(left)| + |OrEmpty(right)|
    requires r[..|OrEmpty(left)|] == OrEmpty(left) && r[|OrEmpty(left)|..] == OrEmpty(right)
    ensures r == PromptJoin(left, right)
  {
    assert r == r[..|OrEmpty(left)|] + r[|OrEmpty(left)|..];
  }

  /** Joining three prompts is joining two and then the third, in either grouping. */
  lemma JoinThreeAssociates(left: Option<string>, middle: Option<string>, right: Option<string>)
    ensures PromptJoinThree(left, middle, right) == PromptJoin(Some(PromptJoin(left, middle)), right)
    ensures PromptJoinThree(left, middle, right) == PromptJoin(left, Some(PromptJoin(middle, right)))
  {
    var l, m, r := OrEmpty(left), OrEmpty(middle), OrEmpty(right);
    assert l + m + r == l + (m + r);
  }

  /** A missing input and an empty one are the same, and either leaves the other input as it is. */
  lemma MissingIsEmpty(x: Option<string>)
    ensures PromptJoin(None, x) == PromptJoin(Some(""), x) == OrEmpty(x)
    ensures PromptJoin(x, None) == PromptJoin(x, Some("")) == OrEmpty(x)
    ensures PromptJoinThree(None, x, None) == OrEmpty(x)
  {
  }
}
