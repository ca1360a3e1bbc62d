/**
 The rewriting rules of `normalize_chinese_punctuation`: nine ordered substitutions, each over
 the text the one before left. `Rewritten` says in one step what a position becomes from its
 own neighbours in the original text; the stages are proved to give exactly that.
 */
module Punctuation {
  import opened Wrappers
  import opened ProtectedSpans

  predicate Cjk(c: char) { '\U{3400}' <= c <= '\U{9fff}' }

  /** `[CJK）》”’]`. */
  predicate ClosesBefore(c: char) { Cjk(c) || c == '）' || c == '》' || c == '”' || c == '’' }

  /** `[CJK（《“‘]`. */
  predicate OpensAfter(c: char) { Cjk(c) || c == '（' || c == '《' || c == '“' || c == '‘' }

  /** `[CJK，。；：！？]`. */
  predicate MarkAfter(c: char) {
    Cjk(c) || c == '，' || c == '。' || c == '；' || c == '：' || c == '！' || c == '？'
  }

  /** One substitution: the mark, what it becomes, its look-behind, its look-ahead and `|$`. */
  datatype Rule = Rule(source: char, target: char, before: char -> bool, after: char -> bool, orEnd: bool)

  const RULES: seq<Rule> := [
    Rule(',', '，', ClosesBefore, OpensAfter, true),
    Rule(':', '：', ClosesBefore, OpensAfter, true),
    Rule(';', '；', ClosesBefore, OpensAfter, true),
    Rule('?', '？', ClosesBefore, OpensAfter, true),
    Rule('!', '！', ClosesBefore, OpensAfter, true),
    Rule('(', '（', Cjk, Cjk, false),
    Rule(')', '）', Cjk, MarkAfter, true),
    Rule('"', '“', Cjk, Cjk, false),
    Rule('"', '”', Cjk, MarkAfter, true)]

  /** A position is open when no protected span covers it. */
  type Mask = seq<bool>

  predicate Open(mask: Mask, i: int) {
    0 <= i < |mask| && !mask[i]
  }

  /** `$` holds at the end, and before a newline that ends the text. */
  predicate AtEnd(mask: Mask, s: string, i: nat)
    requires |mask| == |s|
  {
    i == |s| || (i == |s| - 1 && Open(mask, i) && s[i] == '\n')
  }

  /** The rule changes position i: sheltered neighbours never count. */
  predicate Fires(rule: Rule, mask: Mask, s: string, i: nat)
    requires |mask| == |s| && i < |s|
  {
    && Open(mask, i) && s[i] == rule.source
    && i > 0 && Open(mask, i - 1) && rule.before(s[i - 1])
    && ((i + 1 < |s| && Open(mask, i + 1) && rule.after(s[i + 1])) || (rule.orEnd && AtEnd(mask, s, i + 1)))
  }

  /** One substitution over the whole text. */
  function Stage(rule: Rule, mask: Mask, s: string): (r: string)
    requires |mask| == |s|
    ensures |r| == |s|
    ensures forall i :: 0 <= i < |s| ==> r[i] == if Fires(rule, mask, s, i) then rule.target else s[i]
  {
    seq(|s|, i requires 0 <= i < |s| => if Fires(rule, mask, s, i) then rule.target else s[i])
  }

  function Stages(n: nat, mask: Mask, s: string): (r: string)
    requires |mask| == |s| && n <= |RULES|
    ensures |r| == |s|
  {
    if n == 0 then s else Stage(RULES[n - 1], mask, Stages(n - 1, mask, s))
  }

  // ---------------------------------------------------------------- one step

  /** The first of the first n rules that fires on the original text, or n. */
  function FirstRule(n: nat, mask: Mask, s: string, i: nat): (r: nat)
    requires |mask| == |s| && i < |s| && n <= |RULES|
    ensures r <= n
    ensures r < n ==> Fires(RULES[r], mask, s, i) && forall q :: 0 <= q < r ==> !Fires(RULES[q], mask, s, i)
    ensures r == n ==> forall q :: 0 <= q < n ==> !Fires(RULES[q], mask, s, i)
  {
    if n == 0 then 0
    else
      var earlier := FirstRule(n - 1, mask, s, i);
      if earlier < n - 1 then earlier
      else if Fires(RULES[n - 1], mask, s, i) then n - 1 else n
  }

  /** What a position becomes by the first n rules, from its neighbours in the original text. */
  function BecomesBy(n: nat, mask: Mask, s: string, i: nat): char
    requires |mask| == |s| && i < |s| && n <= |RULES|
  {
    var r := FirstRule(n, mask, s, i);
    if r < n then RULES[r].target else s[i]
  }

  function Becomes(mask: Mask, s: string, i: nat): char
    requires |mask| == |s| && i < |s|
  {
    BecomesBy(|RULES|, mask, s, i)
  }

  function Rewritten(mask: Mask, s: string): (r: string)
    requires |mask| == |s|
    ensures |r| == |s|
    ensures forall i :: 0 <= i < |s| ==> r[i] == Becomes(mask, s, i)
  {
    seq(|s|, i requires 0 <= i < |s| => Becomes(mask, s, i))
  }

  predicate IsSource(c: char) {
    c == ',' || c == ':' || c == ';' || c == '?' || c == '!' || c == '(' || c == ')' || c == '"'
  }

  /** What all rules have in common. */
  lemma RuleFacts(n: nat)
    requires n < |RULES|
    ensures var rule := RULES[n];
      && IsSource(rule.source) && !IsSource(rule.target) && Punctuation(rule.target)
      && Narrow(rule.target) == rule.source
      && (forall c :: IsSource(c) ==> !rule.before(c) && !rule.after(c))
      && (n >= 5 ==> forall c :: rule.before(c) ==> Cjk(c))
      && (forall c :: rule.before(c) ==> ClosesBefore(c))
      && (n < 5 ==> MarkAfter(rule.target) && !ClosesBefore(rule.target) && !OpensAfter(rule.target))
      && (forall q :: 0 <= q < n && RULES[q].source == rule.source ==> q == 7 && n == 8)
  {
  }

  /** Where an earlier rule fired, the neighbour in front closes, and the position shows a target. */
  lemma Changed(n: nat, mask: Mask, s: string, j: nat) returns (r: nat)
    requires |mask| == |s| && j < |s| && n <= |RULES| && BecomesBy(n, mask, s, j) != s[j]
    ensures r < n && Fires(RULES[r], mask, s, j) && BecomesBy(n, mask, s, j) == RULES[r].target
    ensures IsSource(s[j]) && !IsSource(RULES[r].target)
    ensures j > 0 && Open(mask, j - 1) && ClosesBefore(s[j - 1])
  {
    r := FirstRule(n, mask, s, j);
    RuleFacts(r);
  }

  /** A position that shows a source mark was not changed. */
  lemma SourceIsUnchanged(n: nat, mask: Mask, s: string, j: nat)
    requires |mask| == |s| && j < |s| && n <= |RULES| && IsSource(BecomesBy(n, mask, s, j))
    ensures BecomesBy(n, mask, s, j) == s[j] && FirstRule(n, mask, s, j) == n
  {
    if FirstRule(n, mask, s, j) < n {
      RuleFacts(FirstRule(n, mask, s, j));
    }
  }

  /** A look-behind that a changed text passes, the original passes. */
  lemma BeforeIsOriginal(n: nat, mask: Mask, s: string, j: nat)
    requires |mask| == |s| && j < |s| && n < |RULES|
    ensures RULES[n].before(BecomesBy(n, mask, s, j)) == RULES[n].before(s[j])
  {
    RuleFacts(n);
    if BecomesBy(n, mask, s, j) != s[j] {
      var r := Changed(n, mask, s, j);
      RuleFacts(r);
    }
  }

  /** What follows a source mark was not changed. */
  lemma NextIsOriginal(n: nat, mask: Mask, s: string, j: nat)
    requires |mask| == |s| && 0 < j < |s| && n <= |RULES| && IsSource(s[j - 1])
    ensures BecomesBy(n, mask, s, j) == s[j]
  {
    if BecomesBy(n, mask, s, j) != s[j] {
      var r := Changed(n, mask, s, j);
    }
  }

  /** A stage fires on what the earlier stages left exactly where its rule fires first on the original. */
  lemma FiresOnOriginal(n: nat, mask: Mask, s: string, x: string, i: nat)
    requires |mask| == |s| == |x| && i < |s| && n < |RULES|
    requires forall j :: 0 <= j < |s| ==> x[j] == BecomesBy(n, mask, s, j)
    ensures Fires(RULES[n], mask, x, i)
       <==> Fires(RULES[n], mask, s, i) && FirstRule(n, mask, s, i) == n
  {
    RuleFacts(n);
    if x[i] == RULES[n].source {
      SourceIsUnchanged(n, mask, s, i);
    }
    if s[i] == RULES[n].source {
      if i > 0 {
        BeforeIsOriginal(n, mask, s, i - 1);
      }
      if i + 1 < |s| {
        NextIsOriginal(n, mask, s, i + 1);
      }
    }
  }

  /** The ordered substitutions refine the one-step rewriting, position by position. */
  lemma {:induction false} StagesAreOneStep(n: nat, mask: Mask, s: string)
    requires |mask| == |s| && n <= |RULES|
    ensures forall i :: 0 <= i < |s| ==> Stages(n, mask, s)[i] == BecomesBy(n, mask, s, i)
  {
    if n == 0 {
    } else {
      StagesAreOneStep(n - 1, mask, s);
      var x := Stages(n - 1, mask, s);
      forall i | 0 <= i < |s| ensures Stages(n, mask, s)[i] == BecomesBy(n, mask, s, i) {
        FiresOnOriginal(n - 1, mask, s, x, i);
      }
    }
  }

  lemma StagesRewrite(mask: Mask, s: string)
    requires |mask| == |s|
    ensures Stages(|RULES|, mask, s) == Rewritten(mask, s)
  {
    StagesAreOneStep(|RULES|, mask, s);
  }

  // ---------------------------------------------------------------- in plain characters

  /** The character next to the position, when it is in the text and not sheltered. */
  function Beside(mask: Mask, s: string, i: int): Option<char>
    requires |mask| == |s|
  {
    if 0 <= i < |s| && !mask[i] then Some(s[i]) else None
  }

  /** Nothing follows the position but perhaps one last newline. */
  predicate IsLast(mask: Mask, s: string, i: nat)
    requires |mask| == |s| && i < |s|
  {
    i + 1 == |s| || (i + 2 == |s| && !mask[i + 1] && s[i + 1] == '\n')
  }

  predicate IsCjkOr(c: Option<char>, others: string) {
    c.Some? && ('\U{3400}' <= c.value <= '\U{9fff}' || c.value in others)
  }

  /**
   What the text y has at position i, from the characters of s around it: a quotation mark opens
   between CJK characters and closes before a wide mark or at the end, a parenthesis likewise, and
   the five other marks widen between closing and opening characters or at the end.
   */
  predicate ReadsAs(mask: Mask, s: string, y: string, i: nat)
    requires |mask| == |s| == |y| && i < |s|
  {
    var front, next, last := Beside(mask, s, i - 1), Beside(mask, s, i + 1), IsLast(mask, s, i);
    var between := IsCjkOr(front, "）》”’") && (IsCjkOr(next, "（《“‘") || last);
    var opens := IsCjkOr(front, "") && IsCjkOr(next, "");
    var closes := IsCjkOr(front, "") && (IsCjkOr(next, "，。；：！？") || last);
    if mask[i] then y[i] == s[i]
    else match s[i]
      case '"' => y[i] == (if opens then '“' else if closes then '”' else '"')
      case '(' => y[i] == (if opens then '（' else '(')
      case ')' => y[i] == (if closes then '）' else ')')
      case ',' => y[i] == (if between then '，' else ',')
      case ':' => y[i] == (if between then '：' else ':')
      case ';' => y[i] == (if between then '；' else ';')
      case '?' => y[i] == (if between then '？' else '?')
      case '!' => y[i] == (if between then '！' else '!')
      case _ => y[i] == s[i]
  }

  /** The classes of the rules, spelled out. */
  lemma ClassesRead(c: char)
    ensures Cjk(c) == IsCjkOr(Some(c), "") && ClosesBefore(c) == IsCjkOr(Some(c), "）》”’")
    ensures OpensAfter(c) == IsCjkOr(Some(c), "（《“‘") && MarkAfter(c) == IsCjkOr(Some(c), "，。；：！？")
  {
  }

  /** When a rule fires, from the characters beside the position. */
  predicate Between(mask: Mask, s: string, i: nat, front: string, next: string, orEnd: bool)
    requires |mask| == |s| && i < |s|
  {
    IsCjkOr(Beside(mask, s, i - 1), front) && (IsCjkOr(Beside(mask, s, i + 1), next) || (orEnd && IsLast(mask, s, i)))
  }

  lemma FiresReads(n: nat, mask: Mask, s: string, i: nat)
    requires |mask| == |s| && i < |s| && n < |RULES|
    ensures Fires(RULES[n], mask, s, i)
       <==> (!mask[i] && s[i] == RULES[n].source
             && if n < 5 then Between(mask, s, i, "）》”’", "（《“‘", true)
                else if n == 5 || n == 7 then Between(mask, s, i, "", "", false)
                else Between(mask, s, i, "", "，。；：！？", true))
  {
    if i > 0 {
      ClassesRead(s[i - 1]);
    }
    if i + 1 < |s| {
      ClassesRead(s[i + 1]);
    }
  }

  lemma RewrittenReads(mask: Mask, s: string, i: nat)
    requires |mask| == |s| && i < |s|
    ensures ReadsAs(mask, s, Rewritten(mask, s), i)
  {
    var r := FirstRule(|RULES|, mask, s, i);
    assert Rewritten(mask, s)[i] == if r < |RULES| then RULES[r].target else s[i];
    forall n: nat | n < |RULES| ensures Fires(RULES[n], mask, s, i) ==> r <= n {
    }
    FiresReads(0, mask, s, i);
    FiresReads(1, mask, s, i);
    FiresReads(2, mask, s, i);
    FiresReads(3, mask, s, i);
    FiresReads(4, mask, s, i);
    FiresReads(5, mask, s, i);
    FiresReads(6, mask, s, i);
    FiresReads(7, mask, s, i);
    FiresReads(8, mask, s, i);
  }

  // ---------------------------------------------------------------- idempotence

  /** Behind a source mark that stayed, no closing mark was produced. */
  lemma NoClosingProduced(mask: Mask, s: string, j: nat, n: nat)
    requires |mask| == |s| && j + 1 < |s| && n < |RULES| && IsSource(s[j + 1])
    requires RULES[n].before(Becomes(mask, s, j))
    ensures Becomes(mask, s, j) == s[j]
  {
    RuleFacts(n);
    if Becomes(mask, s, j) != s[j] {
      var r := Changed(|RULES|, mask, s, j);
      RuleFacts(r);
    }
  }

  /** Nothing fires on a rewritten text. */
  lemma NothingFiresTwice(mask: Mask, s: string, n: nat, i: nat)
    requires |mask| == |s| && n < |RULES| && i < |s|
    ensures !Fires(RULES[n], mask, Rewritten(mask, s), i)
  {
    var y := Rewritten(mask, s);
    if Fires(RULES[n], mask, y, i) {
      RuleFacts(n);
      SourceIsUnchanged(|RULES|, mask, s, i);
      NoClosingProduced(mask, s, i - 1, n);
      if i + 1 < |s| {
        NextIsOriginal(|RULES|, mask, s, i + 1);
      }
    }
  }

  lemma RewrittenIsStable(mask: Mask, s: string)
    requires |mask| == |s|
    ensures Rewritten(mask, Rewritten(mask, s)) == Rewritten(mask, s)
  {
    var y := Rewritten(mask, s);
    forall i | 0 <= i < |s| ensures Becomes(mask, y, i) == y[i] {
      forall n | 0 <= n < |RULES| ensures !Fires(RULES[n], mask, y, i) {
        NothingFiresTwice(mask, s, n, i);
      }
    }
  }

  /** Rewriting changes only the width of marks, and no colon after "p" or "s". */
  lemma RewrittenKeepsShape(mask: Mask, s: string)
    requires |mask| == |s|
    ensures SameShape(s, Rewritten(mask, s))
  {
    var y := Rewritten(mask, s);
    forall j | 0 <= j < |s|
      ensures Narrow(s[j]) == Narrow(y[j])
      ensures j > 0 && (s[j - 1] == 'p' || s[j - 1] == 's') ==> s[j] == y[j]
    {
      if y[j] != s[j] {
        var r := Changed(|RULES|, mask, s, j);
        RuleFacts(r);
      }
    }
  }
}
