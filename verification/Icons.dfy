/** `getIconName`: the brand icon shown next to a model's name, chosen by
    the first vendor word found in the lower-cased name. */
module Icons {
  import opened Wrappers

  /** ASCII lower-casing of one character. */
  function LowerChar(c: char): char {
    if 'A' <= c <= 'Z' then (c as int - 'A' as int + 'a' as int) as char else c
  }

  /** ASCII upper-casing of one character. */
  function UpperChar(c: char): char {
    if 'a' <= c <= 'z' then (c as int - 'a' as int + 'A' as int) as char else c
  }

  /** `name.toLowerCase()`, restricted to ASCII letters. */
  function Lower(s: string): (r: string)
    ensures |r| == |s|
    ensures forall i :: 0 <= i < |s| ==> r[i] == LowerChar(s[i])
  {
    seq(|s|, i requires 0 <= i < |s| => LowerChar(s[i]))
  }

  function Upper(s: string): (r: string)
    ensures |r| == |s|
    ensures forall i :: 0 <= i < |s| ==> r[i] == UpperChar(s[i])
  {
    seq(|s|, i requires 0 <= i < |s| => UpperChar(s[i]))
  }

  /** `sub` occurs in `s` starting at offset `i`. */
  predicate OccursAt(s: string, sub: string, i: int) {
    0 <= i <= |s| - |sub| && s[i..i + |sub|] == sub
  }

  /** `s.includes(sub)`: `sub` occurs in `s` at some offset. */
  predicate Contains(s: string, sub: string) {
    exists i :: 0 <= i <= |s| - |sub| && OccursAt(s, sub, i)
  }

  const Anthropic := "simple-icons:anthropic"
  const DeepSeek := "simple-icons:deepseek"
  const AlibabaCloud := "simple-icons:alibabacloud"

  /** The checks run in order "claude", "deepseek", "qwen"; `null` when none
      occurs. */
  function IconName(name: string): (r: Option<string>)
    ensures r == Some(Anthropic) <==> Contains(Lower(name), "claude")
    ensures r == Some(DeepSeek)
        <==> !Contains(Lower(name), "claude") && Contains(Lower(name), "deepseek")
    ensures r == Some(AlibabaCloud)
        <==> !Contains(Lower(name), "claude") && !Contains(Lower(name), "deepseek")
             && Contains(Lower(name), "qwen")
    ensures r.None? <==> !Contains(Lower(name), "claude") && !Contains(Lower(name), "deepseek")
                         && !Contains(Lower(name), "qwen")
  {
    var lower := Lower(name);
    if Contains(lower, "claude") then Some(Anthropic)
    else if Contains(lower, "deepseek") then Some(DeepSeek)
    else if Contains(lower, "qwen") then Some(AlibabaCloud)
    else None
  }

  lemma LowerIdempotent(s: string)
    ensures Lower(Lower(s)) == Lower(s)
  {
  }

  lemma LowerOfUpper(s: string)
    ensures Lower(Upper(s)) == Lower(s)
  {
  }

  /** The icon does not depend on letter case. */
  lemma IconIgnoresCase(name: string)
    ensures IconName(Lower(name)) == IconName(name)
    ensures IconName(Upper(name)) == IconName(name)
  {
    LowerIdempotent(name);
    LowerOfUpper(name);
  }

  lemma LowerAppend(a: string, b: string)
    ensures Lower(a + b) == Lower(a) + Lower(b)
  {
  }

  lemma ContainsAppend(a: string, b: string, sub: string)
    requires Contains(a, sub)
    ensures Contains(a + b, sub) && Contains(b + a, sub)
  {
    var i :| 0 <= i <= |a| - |sub| && OccursAt(a, sub, i);
    assert (a + b)[i..i + |sub|] == a[i..i + |sub|];
    assert OccursAt(a + b, sub, i);
    assert (b + a)[|b| + i..|b| + i + |sub|] == a[i..i + |sub|];
    assert OccursAt(b + a, sub, |b| + i);
  }

  /** A name that mentions Claude keeps the Anthropic icon whatever text
      surrounds it. */
  lemma ClaudeWins(pre: string, name: string, post: string)
    requires IconName(name) == Some(Anthropic)
    ensures IconName(pre + name + post) == Some(Anthropic)
  {
    LowerAppend(pre, name);
    LowerAppend(pre + name, post);
    ContainsAppend(Lower(name), Lower(pre), "claude");
    ContainsAppend(Lower(pre) + Lower(name), Lower(post), "claude");
  }

  /** Worked cases: the vendor word may appear anywhere and in any case, and
      "claude" outranks "qwen" when both appear. */
  lemma IconNameExamples()
    ensures IconName("DeepSeek-V3") == Some(DeepSeek)
    ensures IconName("Qwen3 vs Claude") == Some(Anthropic)
  {
    var d := Lower("DeepSeek-V3");
    assert d == "deepseek-v3";
    assert OccursAt(d, "deepseek", 0);
    forall i | 0 <= i <= |d| - 6
      ensures !OccursAt(d, "claude", i)
    {
      assert d[i] != 'c';
      assert d[i..i + 6][0] == d[i];
    }
    var q := Lower("Qwen3 vs Claude");
    assert q == "qwen3 vs claude";
    assert OccursAt(q, "claude", 9);
  }
}
