/** The rule-based suggestion engine behind `POST /recommend`
    (server/routes/ai.js): fixed problem references keyed by substrings of a
    free-text prompt. */
module PromptRules {
  import opened Common
  import opened Text

  const FoxAndNames := "Codeforces 510C – Fox And Names"
  const CloneGraph := "LeetCode 133 – Clone Graph"
  const LongestCommonSubsequence := "LeetCode 1143 – Longest Common Subsequence"
  const FrogJump := "AtCoder Educational DP Contest – Frog Jump"
  const ConstructBinaryTree := "LeetCode 105 – Construct Binary Tree"
  const TwoSum := "LeetCode 1 – Two Sum"

  /** The references one rule contributes when its keyword occurs. */
  function GraphBlock(prompt: string): seq<string>
  {
    if Contains(prompt, "graph") then [FoxAndNames, CloneGraph] else []
  }

  function DpBlock(prompt: string): seq<string>
  {
    if Contains(prompt, "dp") then [LongestCommonSubsequence, FrogJump] else []
  }

  function TreeBlock(prompt: string): seq<string>
  {
    if Contains(prompt, "tree") then [ConstructBinaryTree] else []
  }

  /** Some keyword rule fires on `prompt`. */
  predicate AnyRuleMatches(prompt: string)
  {
    Contains(prompt, "graph") || Contains(prompt, "dp") || Contains(prompt, "tree")
  }

  /** The rules are independent: every matching block is contributed, in
      the fixed order graph, dp, tree; the default stands alone and only when
      nothing matched. A missing prompt makes `includes` throw, which the
      handler turns into an error reply (`None`). */
  method Suggest(prompt: Option<string>) returns (suggestions: Option<seq<string>>)
    ensures prompt.None? ==> suggestions.None?
    ensures prompt.Some? ==> suggestions.Some?
    ensures prompt.Some? && AnyRuleMatches(prompt.value) ==>
      suggestions.value == GraphBlock(prompt.value) + DpBlock(prompt.value) + TreeBlock(prompt.value)
    ensures prompt.Some? && !AnyRuleMatches(prompt.value) ==> suggestions.value == [TwoSum]
    ensures suggestions.Some? ==> 1 <= |suggestions.value| <= 5
    ensures suggestions.Some? ==> (TwoSum in suggestions.value <==> !AnyRuleMatches(prompt.value))
    ensures suggestions.Some? && TwoSum in suggestions.value ==> suggestions.value == [TwoSum]
  {
    if prompt.None? {
      return None;
    }
    var text := prompt.value;
    var recommendations: seq<string> := [];
    if Contains(text, "graph") {
      recommendations := recommendations + [FoxAndNames];
      recommendations := recommendations + [CloneGraph];
    }
    if Contains(text, "dp") {
      recommendations := recommendations + [LongestCommonSubsequence];
      recommendations := recommendations + [FrogJump];
    }
    if Contains(text, "tree") {
      recommendations := recommendations + [ConstructBinaryTree];
    }
    assert recommendations == GraphBlock(text) + DpBlock(text) + TreeBlock(text);
    if |recommendations| == 0 {
      recommendations := recommendations + [TwoSum];
    }
    suggestions := Some(recommendations);
  }

  /** Matching is case-sensitive: a capitalised keyword fires no rule. */
  lemma CapitalisedKeywordFiresNothing()
    ensures !AnyRuleMatches("Graph")
    ensures !AnyRuleMatches("DP Tree")
  {
    ContainsNeedsFirstChar("Graph", "graph");
    ContainsNeedsFirstChar("Graph", "dp");
    ContainsNeedsFirstChar("Graph", "tree");
    ContainsNeedsFirstChar("DP Tree", "graph");
    ContainsNeedsFirstChar("DP Tree", "dp");
    ContainsNeedsFirstChar("DP Tree", "tree");
  }
}
