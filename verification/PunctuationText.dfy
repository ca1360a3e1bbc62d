/**
 `normalize_chinese_punctuation` on strings: protected spans are replaced by keys, the
 substitutions run over the sheltered text, and the keys are replaced back. The result is
 proved to be the one-step rewriting of the positions outside the spans.
 */
module PunctuationText {
  import opened Wrappers
  import opened Decimal
  import opened ProtectedSpans
  import opened Punctuation

  const KEY_OPEN := '\U{e000}'
  const KEY_CLOSE := '\U{e001}'

  function Key(k: nat): string {
    [KEY_OPEN] + Digits(k) + [KEY_CLOSE]
  }

  /** Which positions the spans cover, from position i on. */
  function MaskFrom(u: Unicode, s: string, i: nat): (m: Mask)
    requires i <= |s|
    ensures |m| == |s| - i
    decreases |s| - i
  {
    var e := Match(u, s, i);
    if i == |s| then []
    else if e > i then seq(e - i, _ => true) + MaskFrom(u, s, e)
    else [false] + MaskFrom(u, s, i + 1)
  }

  function MaskOf(u: Unicode, s: string): (m: Mask)
    ensures |m| == |s|
  {
    MaskFrom(u, s, 0)
  }

  /** Where the search goes on: behind the span it finds, or one further. */
  function Onward(u: Unicode, s: string, i: nat): (n: nat)
    requires i < |s|
    ensures i < n <= |s|
  {
    if Match(u, s, i) > i then Match(u, s, i) else i + 1
  }

  /** The search that looks at i comes to look at a. */
  predicate ComesTo(u: Unicode, s: string, i: nat, a: nat)
    requires i <= |s|
    ensures ComesTo(u, s, i, a) ==> i <= a <= |s|
    decreases |s| - i
  {
    i == a || (i < |s| && ComesTo(u, s, Onward(u, s, i), a))
  }

  /** The search from i finds a span at a, and j lies in it. */
  predicate Covers(u: Unicode, s: string, i: nat, a: nat, j: nat)
    requires i <= |s|
  {
    a <= j && ComesTo(u, s, i, a) && Match(u, s, a) > j
  }

  /** The position lies in a span that the search from i finds. */
  ghost predicate IsCovered(u: Unicode, s: string, i: nat, j: nat)
    requires i <= |s|
  {
    exists a: nat :: Covers(u, s, i, a, j)
  }

  /** A position is protected exactly when it lies in a span that the search from the start finds. */
  lemma MaskMeans(u: Unicode, s: string, j: nat)
    requires j < |s|
    ensures MaskOf(u, s)[j] <==> IsCovered(u, s, 0, j)
  {
    MaskFromMeans(u, s, 0, j, j);
  }

  lemma MaskOfSpan(u: Unicode, s: string, i: nat, e: nat, k: nat)
    requires i < |s| && k < |s| - i && e == Match(u, s, i) && i < e
    ensures MaskFrom(u, s, i)[k] == (k < e - i || MaskFrom(u, s, e)[k - (e - i)])
  {
  }

  lemma MaskOfNone(u: Unicode, s: string, i: nat, k: nat)
    requires i < |s| && Match(u, s, i) == i && k < |s| - i
    ensures MaskFrom(u, s, i)[k] == (k > 0 && MaskFrom(u, s, i + 1)[k - 1])
  {
  }

  lemma MaskOnward(u: Unicode, s: string, i: nat, n: nat, k: nat)
    requires i < |s| && n == Onward(u, s, i) && k < |s| - i
    ensures MaskFrom(u, s, i)[k] == if k < n - i then Match(u, s, i) > i else MaskFrom(u, s, n)[k - (n - i)]
  {
    if Match(u, s, i) > i {
      MaskOfSpan(u, s, i, n, k);
    } else {
      MaskOfNone(u, s, i, k);
    }
  }

  lemma CoversOnward(u: Unicode, s: string, i: nat, n: nat, a: nat, j: nat)
    requires i < |s| && n == Onward(u, s, i)
    ensures Covers(u, s, i, a, j) <==> (a == i <= j < Match(u, s, i)) || Covers(u, s, n, a, j)
    ensures Covers(u, s, n, a, j) ==> n <= j
  {
  }

  lemma CoveredOnward(u: Unicode, s: string, i: nat, n: nat, j: nat)
    requires i <= j < |s| && n == Onward(u, s, i)
    ensures IsCovered(u, s, i, j) <==> j < Match(u, s, i) || IsCovered(u, s, n, j)
    ensures IsCovered(u, s, n, j) ==> n <= j
  {
    CoversOnward(u, s, i, n, i, j);
    if a: nat :| Covers(u, s, i, a, j) {
      CoversOnward(u, s, i, n, a, j);
    }
    if a: nat :| Covers(u, s, n, a, j) {
      CoversOnward(u, s, i, n, a, j);
    }
  }

  lemma {:induction false} MaskFromMeans(u: Unicode, s: string, i: nat, j: nat, k: nat)
    requires i <= j < |s| && k == j - i
    ensures MaskFrom(u, s, i)[k] <==> IsCovered(u, s, i, j)
    decreases |s| - i
  {
    var n := Onward(u, s, i);
    MaskOnward(u, s, i, n, k);
    CoveredOnward(u, s, i, n, j);
    if j >= n {
      MaskFromMeans(u, s, n, j, j - n);
    }
  }

  /** The spans of the text from position i on, in order. */
  function SpansFrom(u: Unicode, s: string, i: nat): seq<string>
    requires i <= |s|
    decreases |s| - i
  {
    var e := Match(u, s, i);
    if i == |s| then []
    else if e > i then [s[i..e]] + SpansFrom(u, s, e)
    else SpansFrom(u, s, i + 1)
  }

  /**
   The text from position i on, with its spans (found in s) replaced by keys from k on and its
   other characters taken from x.
   */
  function Sheltered(u: Unicode, s: string, x: string, i: nat, k: nat): string
    requires i <= |s| == |x|
    decreases |s| - i
  {
    var e := Match(u, s, i);
    if i == |s| then ""
    else if e > i then Key(k) + Sheltered(u, s, x, e, k + 1)
    else [x[i]] + Sheltered(u, s, x, i + 1, k)
  }

  // ---------------------------------------------------------------- one substitution on a string

  /** Whether the rule changes the first character of v, which follows `prev`. */
  predicate FiresAt(rule: Rule, prev: Option<char>, v: string)
    requires v != ""
  {
    && v[0] == rule.source && prev.Some? && rule.before(prev.value)
    && ((|v| > 1 && rule.after(v[1])) || (rule.orEnd && (|v| == 1 || v[1..] == "\n")))
  }

  /** `re.sub` with the rule's one-character pattern. */
  function Substitute(rule: Rule, prev: Option<char>, v: string): string
    decreases |v|
  {
    if v == "" then ""
    else [if FiresAt(rule, prev, v) then rule.target else v[0]] + Substitute(rule, Some(v[0]), v[1..])
  }

  /** Keys contain no mark: a substitution passes over them. */
  lemma {:induction false} SubstituteKey(rule: Rule, prev: Option<char>, key: string, rest: string)
    requires key != "" && forall c :: c in key ==> c != rule.source
    ensures Substitute(rule, prev, key + rest) == key + Substitute(rule, Some(key[|key| - 1]), rest)
    decreases |key|
  {
    var v := key + rest;
    assert v[1..] == key[1..] + rest;
    if |key| > 1 {
      assert forall c :: c in key[1..] ==> c in key;
      SubstituteKey(rule, Some(key[0]), key[1..], rest);
      assert key == [key[0]] + key[1..];
      var tail := Substitute(rule, Some(key[|key| - 1]), rest);
      assert [key[0]] + (key[1..] + tail) == key + tail;
    } else {
      assert v[1..] == rest;
    }
  }

  lemma KeyIsNeutral(n: nat, k: nat)
    requires n < |RULES|
    ensures forall c :: c in Key(k) ==> c != RULES[n].source
    ensures Key(k)[0] == KEY_OPEN && Key(k)[|Key(k)| - 1] == KEY_CLOSE && |Key(k)| >= 3
    ensures !RULES[n].before(KEY_CLOSE) && !RULES[n].after(KEY_OPEN)
  {
    DigitsAreDigits(k);
    RuleFacts(n);
  }

  /** What stands before position i in the sheltered text. */
  function PrevOf(mask: Mask, x: string, i: nat): Option<char>
    requires |mask| == |x| && i <= |x|
  {
    if i == 0 then None else if mask[i - 1] then Some(KEY_CLOSE) else Some(x[i - 1])
  }

  /** The mask agrees with the spans: from a boundary i on it is what the matcher finds. */
  predicate Boundaries(u: Unicode, s: string, mask: Mask, i: nat)
    requires i <= |s|
  {
    |mask| == |s| && mask[i..] == MaskFrom(u, s, i)
  }

  lemma NextBoundary(u: Unicode, s: string, mask: Mask, i: nat)
    requires i < |s| && Boundaries(u, s, mask, i)
    ensures var e := Match(u, s, i);
            if e > i then Boundaries(u, s, mask, e) && forall j :: i <= j < e ==> mask[j]
            else Boundaries(u, s, mask, i + 1) && !mask[i]
  {
    var e := Match(u, s, i);
    if e > i {
      assert mask[e..] == mask[i..][e - i..];
      forall j | i <= j < e ensures mask[j] {
        assert mask[j] == mask[i..][j - i];
      }
    } else {
      assert mask[i + 1..] == mask[i..][1..];
      assert mask[i] == mask[i..][0];
    }
  }

  /** How the sheltered rest of the text begins. */
  lemma ShelteredStart(u: Unicode, s: string, x: string, mask: Mask, i: nat, k: nat)
    requires i <= |s| == |x| && Boundaries(u, s, mask, i)
    ensures var v := Sheltered(u, s, x, i, k);
      && (v == "" <==> i == |s|)
      && (i < |s| ==> v[0] == if mask[i] then KEY_OPEN else x[i])
      && (i < |s| && mask[i] ==> |v| > 1)
      && (i < |s| && !mask[i] ==> (|v| == 1 <==> i + 1 == |s|))
  {
    if i < |s| {
      NextBoundary(u, s, mask, i);
      KeyIsNeutral(0, k);
      if Match(u, s, i) == i {
        var rest := Sheltered(u, s, x, i + 1, k);
        if i + 1 < |s| {
          NextBoundary(u, s, mask, i + 1);
        }
      }
    }
  }

  /** Seen from the sheltered text a rule fires where it fires on the masked text. */
  lemma FiresAlike(u: Unicode, n: nat, s: string, x: string, mask: Mask, i: nat, k: nat)
    requires n < |RULES| && i < |s| == |x| && Boundaries(u, s, mask, i) && Match(u, s, i) == i
    ensures var v := Sheltered(u, s, x, i, k);
            v != "" && v[0] == x[i] && v[1..] == Sheltered(u, s, x, i + 1, k)
            && (FiresAt(RULES[n], PrevOf(mask, x, i), v) <==> Fires(RULES[n], mask, x, i))
  {
    var v, rest := Sheltered(u, s, x, i, k), Sheltered(u, s, x, i + 1, k);
    NextBoundary(u, s, mask, i);
    ShelteredStart(u, s, x, mask, i + 1, k);
    KeyIsNeutral(n, k);
    assert v[1..] == rest;
    assert rest == "\n" <==> |rest| == 1 && rest[0] == '\n';
    if i + 1 < |s| {
      assert v[1] == rest[0];
    }
  }

  /** One substitution over the sheltered text is one stage over the masked text. */
  lemma {:induction false} SubstituteSheltered(u: Unicode, n: nat, s: string, x: string, mask: Mask, i: nat, k: nat)
    requires n < |RULES| && i <= |s| == |x| && Boundaries(u, s, mask, i)
    ensures Substitute(RULES[n], PrevOf(mask, x, i), Sheltered(u, s, x, i, k))
         == Sheltered(u, s, Stage(RULES[n], mask, x), i, k)
    decreases |s| - i
  {
    if i == |s| {
    } else {
      var e := Match(u, s, i);
      NextBoundary(u, s, mask, i);
      if e > i {
        KeyIsNeutral(n, k);
        SubstituteKey(RULES[n], PrevOf(mask, x, i), Key(k), Sheltered(u, s, x, e, k + 1));
        SubstituteSheltered(u, n, s, x, mask, e, k + 1);
      } else {
        FiresAlike(u, n, s, x, mask, i, k);
        SubstituteSheltered(u, n, s, x, mask, i + 1, k);
      }
    }
  }

  /** The first n substitutions, as the source rebinds its text. */
  function SubstituteAll(n: nat, v: string): string
    requires n <= |RULES|
  {
    if n == 0 then v else Substitute(RULES[n - 1], None, SubstituteAll(n - 1, v))
  }

  lemma {:induction false} SubstituteAllSheltered(u: Unicode, s: string, n: nat)
    requires n <= |RULES|
    ensures SubstituteAll(n, Sheltered(u, s, s, 0, 0)) == Sheltered(u, s, Stages(n, MaskOf(u, s), s), 0, 0)
  {
    if n == 0 {
    } else {
      SubstituteAllSheltered(u, s, n - 1);
      SubstituteSheltered(u, n - 1, s, Stages(n - 1, MaskOf(u, s), s), MaskOf(u, s), 0, 0);
    }
  }

  // ---------------------------------------------------------------- putting the spans back

  /** `value.replace(key, original)`. */
  function ReplaceAll(v: string, key: string, original: string): string
    requires key != ""
    decreases |v|
  {
    if v == "" then ""
    else if key <= v then original + ReplaceAll(v[|key|..], key, original)
    else [v[0]] + ReplaceAll(v[1..], key, original)
  }

  function RestoreAll(v: string, spans: seq<string>, m: nat): string
    requires m <= |spans|
  {
    if m == 0 then v else ReplaceAll(RestoreAll(v, spans, m - 1), Key(m - 1), spans[m - 1])
  }

  /** The sheltered text with the first m keys already replaced back. */
  function Mixed(u: Unicode, s: string, x: string, i: nat, k: nat, m: nat): string
    requires i <= |s| == |x|
    decreases |s| - i
  {
    var e := Match(u, s, i);
    if i == |s| then ""
    else if e > i then (if k < m then s[i..e] else Key(k)) + Mixed(u, s, x, e, k + 1, m)
    else [x[i]] + Mixed(u, s, x, i + 1, k, m)
  }

  /** The text has neither of the two private characters the keys are made of. */
  predicate KeyFree(s: string) {
    KEY_OPEN !in s && KEY_CLOSE !in s
  }

  lemma {:induction false} ReplaceOver(block: string, rest: string, key: string, original: string)
    requires key != "" && key[0] !in block
    ensures ReplaceAll(block + rest, key, original) == block + ReplaceAll(rest, key, original)
    decreases |block|
  {
    if block == "" {
      assert block + rest == rest;
    } else {
      var v := block + rest;
      assert v[1..] == block[1..] + rest && v[0] == block[0];
      ReplaceOver(block[1..], rest, key, original);
      var tail := ReplaceAll(rest, key, original);
      assert [block[0]] + (block[1..] + tail) == block + tail;
    }
  }

  /** Two prefixes that each end at their first mark are the same prefix. */
  lemma EqualUpToMark(a: string, b: string, mark: char, v: string)
    requires mark !in a && mark !in b
    requires a + [mark] <= v && b + [mark] <= v
    ensures a == b
  {
    assert (a + [mark])[|a|] == mark && (b + [mark])[|b|] == mark;
    assert forall n :: 0 <= n < |a| ==> (a + [mark])[n] == a[n] == v[n];
    assert forall n :: 0 <= n < |b| ==> (b + [mark])[n] == b[n] == v[n];
  }

  /** A key does not begin at the start of another key. */
  lemma KeysAreNoPrefixes(j: nat, k: nat, rest: string)
    requires Key(k) <= Key(j) + rest
    ensures j == k
  {
    DigitsAreDigits(j);
    DigitsAreDigits(k);
    var a, b := Digits(j), Digits(k);
    var v := Key(j) + rest;
    assert a + [KEY_CLOSE] <= v[1..];
    assert b + [KEY_CLOSE] == Key(k)[1..] && Key(k)[1..] <= v[1..];
    EqualUpToMark(a, b, KEY_CLOSE, v[1..]);
    DigitsDiffer(j, k);
  }

  lemma ReplaceOtherKey(j: nat, k: nat, rest: string, original: string)
    requires j != k
    ensures ReplaceAll(Key(j) + rest, Key(k), original) == Key(j) + ReplaceAll(rest, Key(k), original)
  {
    var v := Key(j) + rest;
    if Key(k) <= v {
      KeysAreNoPrefixes(j, k, rest);
    }
    var tail := Digits(j) + [KEY_CLOSE];
    assert v[1..] == tail + rest && v[0] == KEY_OPEN;
    DigitsAreDigits(j);
    ReplaceOver(tail, rest, Key(k), original);
    var done := ReplaceAll(rest, Key(k), original);
    assert [KEY_OPEN] + (tail + done) == Key(j) + done;
  }

  lemma ReplaceOwnKey(k: nat, rest: string, original: string)
    ensures ReplaceAll(Key(k) + rest, Key(k), original) == original + ReplaceAll(rest, Key(k), original)
  {
    assert (Key(k) + rest)[|Key(k)|..] == rest;
  }

  /** One replacement at a span. */
  lemma RestoreSpan(u: Unicode, s: string, x: string, i: nat, k: nat, m: nat, original: string)
    requires i < |s| == |x| && KeyFree(s) && Match(u, s, i) > i && (k == m ==> original == s[i..Match(u, s, i)])
    requires var e := Match(u, s, i);
      ReplaceAll(Mixed(u, s, x, e, k + 1, m), Key(m), original) == Mixed(u, s, x, e, k + 1, m + 1)
    ensures ReplaceAll(Mixed(u, s, x, i, k, m), Key(m), original) == Mixed(u, s, x, i, k, m + 1)
  {
    var e := Match(u, s, i);
    var rest := Mixed(u, s, x, e, k + 1, m);
    if k < m {
      ReplaceOver(s[i..e], rest, Key(m), original);
    } else if k == m {
      ReplaceOwnKey(m, rest, original);
    } else {
      ReplaceOtherKey(k, m, rest, original);
    }
  }

  lemma SpansStep(u: Unicode, s: string, spans: seq<string>, i: nat, k: nat)
    requires i < |s| && Match(u, s, i) > i && k <= |spans| && SpansFrom(u, s, i) == spans[k..]
    ensures k < |spans| && spans[k] == s[i..Match(u, s, i)]
    ensures SpansFrom(u, s, Match(u, s, i)) == spans[k + 1..]
  {
    assert spans[k..][0] == spans[k] && spans[k..][1..] == spans[k + 1..];
  }

  /** Replacing one key puts one span back and touches nothing else. */
  lemma {:induction false} RestoreOne(u: Unicode, s: string, x: string, spans: seq<string>, i: nat, k: nat, m: nat)
    requires i <= |s| == |x| && KeyFree(s) && KeyFree(x)
    requires k <= |spans| && SpansFrom(u, s, i) == spans[k..] && m < |spans|
    ensures ReplaceAll(Mixed(u, s, x, i, k, m), Key(m), spans[m]) == Mixed(u, s, x, i, k, m + 1)
    decreases |s| - i
  {
    if i == |s| {
    } else if Match(u, s, i) > i {
      var e := Match(u, s, i);
      SpansStep(u, s, spans, i, k);
      RestoreOne(u, s, x, spans, e, k + 1, m);
      RestoreSpan(u, s, x, i, k, m, spans[m]);
    } else {
      RestoreOne(u, s, x, spans, i + 1, k, m);
      ReplaceOver([x[i]], Mixed(u, s, x, i + 1, k, m), Key(m), spans[m]);
    }
  }

  lemma {:induction false} RestoreAllMixed(u: Unicode, s: string, x: string, m: nat)
    requires |s| == |x| && KeyFree(s) && KeyFree(x) && m <= |SpansFrom(u, s, 0)|
    ensures RestoreAll(Sheltered(u, s, x, 0, 0), SpansFrom(u, s, 0), m) == Mixed(u, s, x, 0, 0, m)
  {
    if m == 0 {
      MixedNone(u, s, x, 0, 0);
    } else {
      RestoreAllMixed(u, s, x, m - 1);
      RestoreOne(u, s, x, SpansFrom(u, s, 0), 0, 0, m - 1);
    }
  }

  lemma {:induction false} MixedNone(u: Unicode, s: string, x: string, i: nat, k: nat)
    requires i <= |s| == |x|
    ensures Mixed(u, s, x, i, k, 0) == Sheltered(u, s, x, i, k)
    decreases |s| - i
  {
    if i == |s| {
    } else {
      var e := Match(u, s, i);
      if e > i {
        MixedNone(u, s, x, e, k + 1);
      } else {
        MixedNone(u, s, x, i + 1, k);
      }
    }
  }

  /** Outside the spans x may differ from s; on them it does not. */
  predicate KeepsSpans(mask: Mask, s: string, x: string) {
    |mask| == |s| == |x| && forall i :: 0 <= i < |s| && mask[i] ==> x[i] == s[i]
  }

  lemma Assoc<T>(a: seq<T>, b: seq<T>, c: seq<T>)
    ensures a + (b + c) == (a + b) + c
  {
  }

  lemma HeadAndTail(x: string, i: nat)
    requires i < |x|
    ensures x[i..] == [x[i]] + x[i + 1..]
  {
  }

  /** On a span, x reads as the span does. */
  lemma SpanOf(mask: Mask, s: string, x: string, i: nat, e: nat)
    requires KeepsSpans(mask, s, x) && i <= e <= |s|
    requires forall j :: i <= j < e ==> mask[j]
    ensures x[i..] == s[i..e] + x[e..]
  {
    assert x[i..e] == s[i..e];
    assert x[i..] == x[i..e] + x[e..];
  }

  lemma {:induction false} MixedAll(u: Unicode, s: string, x: string, mask: Mask, i: nat, k: nat, m: nat)
    requires i <= |s| && KeepsSpans(mask, s, x) && Boundaries(u, s, mask, i)
    requires m == k + |SpansFrom(u, s, i)|
    ensures Mixed(u, s, x, i, k, m) == x[i..]
    decreases |s| - i
  {
    if i == |s| {
    } else {
      var e := Match(u, s, i);
      NextBoundary(u, s, mask, i);
      if e > i {
        SpanOf(mask, s, x, i, e);
        MixedAll(u, s, x, mask, e, k + 1, m);
      } else {
        MixedAll(u, s, x, mask, i + 1, k, m);
        HeadAndTail(x, i);
      }
    }
  }

  // ---------------------------------------------------------------- counting

  /** How many positions differ. */
  function Differences(a: string, b: string): nat
    requires |a| == |b|
  {
    if a == "" then 0 else (if a[0] != b[0] then 1 else 0) + Differences(a[1..], b[1..])
  }

  /** The positions from i on where the texts differ. */
  function DifferingFrom(a: string, b: string, i: nat): set<nat>
    requires |a| == |b|
  {
    set j: nat | i <= j < |a| && a[j] != b[j]
  }

  lemma {:induction false} DifferencesAreCounted(a: string, b: string, i: nat)
    requires i <= |a| == |b|
    ensures Differences(a[i..], b[i..]) == |DifferingFrom(a, b, i)|
    decreases |a| - i
  {
    if i < |a| {
      DifferencesAreCounted(a, b, i + 1);
      assert a[i..][1..] == a[i + 1..] && b[i..][1..] == b[i + 1..];
      assert DifferingFrom(a, b, i) == DifferingFrom(a, b, i + 1) + if a[i] != b[i] then {i} else {};
    }
  }

  lemma {:induction false} DifferencesAfter(head: string, a: string, b: string)
    requires |a| == |b|
    ensures Differences(head + a, head + b) == Differences(a, b)
  {
    if head == "" {
      assert head + a == a && head + b == b;
    } else {
      assert (head + a)[1..] == head[1..] + a && (head + b)[1..] == head[1..] + b;
      DifferencesAfter(head[1..], a, b);
    }
  }

  /** The sheltered texts differ where the texts differ: the count is taken before the keys go back. */
  lemma {:induction false} DifferencesSheltered(u: Unicode, s: string, x: string, mask: Mask, i: nat, k: nat)
    requires i <= |s| && KeepsSpans(mask, s, x) && Boundaries(u, s, mask, i)
    ensures |Sheltered(u, s, s, i, k)| == |Sheltered(u, s, x, i, k)|
    ensures Differences(Sheltered(u, s, s, i, k), Sheltered(u, s, x, i, k)) == Differences(s[i..], x[i..])
    decreases |s| - i
  {
    if i == |s| {
    } else {
      var e := Match(u, s, i);
      NextBoundary(u, s, mask, i);
      if e > i {
        DifferencesSheltered(u, s, x, mask, e, k + 1);
        DifferencesAfter(Key(k), Sheltered(u, s, s, e, k + 1), Sheltered(u, s, x, e, k + 1));
        DifferencesAfter(s[i..e], s[e..], x[e..]);
        SpanOf(mask, s, s, i, e);
        SpanOf(mask, s, x, i, e);
      } else {
        DifferencesSheltered(u, s, x, mask, i + 1, k);
        assert s[i..][1..] == s[i + 1..] && x[i..][1..] == x[i + 1..];
        assert Sheltered(u, s, s, i, k)[1..] == Sheltered(u, s, s, i + 1, k);
        assert Sheltered(u, s, x, i, k)[1..] == Sheltered(u, s, x, i + 1, k);
      }
    }
  }

  // ---------------------------------------------------------------- the function as a whole

  /** The meaning: every position outside the protected spans becomes what its neighbours ask for. */
  function Normalized(u: Unicode, text: string): (r: string)
    ensures |r| == |text|
  {
    Rewritten(MaskOf(u, text), text)
  }

  /** In plain characters: what the text reads at each position. */
  lemma NormalizedReads(u: Unicode, text: string)
    ensures forall i :: 0 <= i < |text| ==> ReadsAs(MaskOf(u, text), text, Normalized(u, text), i)
  {
    forall i | 0 <= i < |text| ensures ReadsAs(MaskOf(u, text), text, Normalized(u, text), i) {
      RewrittenReads(MaskOf(u, text), text, i);
    }
  }

  lemma NormalizedKeepsSpans(u: Unicode, text: string)
    ensures KeepsSpans(MaskOf(u, text), text, Normalized(u, text))
    ensures KeyFree(text) ==> KeyFree(Normalized(u, text))
  {
    var mask, y := MaskOf(u, text), Normalized(u, text);
    forall i | 0 <= i < |text|
      ensures mask[i] ==> y[i] == text[i]
      ensures y[i] == text[i] || (y[i] != KEY_OPEN && y[i] != KEY_CLOSE)
    {
      if y[i] != text[i] {
        var r := Changed(|RULES|, mask, text, i);
        RuleFacts(r);
      }
    }
  }

  /** Lines 253-265: shelter every span, from left to right. */
  method Shelter(u: Unicode, text: string) returns (value: string, spans: seq<string>)
    ensures value == Sheltered(u, text, text, 0, 0) && spans == SpansFrom(u, text, 0)
  {
    value, spans := "", [];
    var i := 0;
    while i < |text|
      invariant i <= |text|
      invariant value + Sheltered(u, text, text, i, |spans|) == Sheltered(u, text, text, 0, 0)
      invariant spans + SpansFrom(u, text, i) == SpansFrom(u, text, 0)
    {
      var e := Match(u, text, i);
      if e > i {
        Assoc(value, Key(|spans|), Sheltered(u, text, text, e, |spans| + 1));
        Assoc(spans, [text[i..e]], SpansFrom(u, text, e));
        value, spans, i := value + Key(|spans|), spans + [text[i..e]], e;
      } else {
        Assoc(value, [text[i]], Sheltered(u, text, text, i + 1, |spans|));
        value, i := value + [text[i]], i + 1;
      }
    }
  }

  /** Line 273. */
  method CountChanges(before: string, value: string) returns (changes: nat)
    requires |before| == |value|
    ensures changes == Differences(before, value)
  {
    changes := 0;
    for i := 0 to |before|
      invariant changes + Differences(before[i..], value[i..]) == Differences(before, value)
    {
      assert before[i..][1..] == before[i + 1..] && value[i..][1..] == value[i + 1..];
      if before[i] != value[i] {
        changes := changes + 1;
      }
    }
  }

  /** Putting every span back gives the rewritten text. */
  lemma RestoresAll(u: Unicode, s: string, x: string, mask: Mask)
    requires KeepsSpans(mask, s, x) && mask == MaskOf(u, s) && KeyFree(s) && KeyFree(x)
    ensures var spans := SpansFrom(u, s, 0); RestoreAll(Sheltered(u, s, x, 0, 0), spans, |spans|) == x
  {
    assert mask[0..] == mask;
    RestoreAllMixed(u, s, x, |SpansFrom(u, s, 0)|);
    MixedAll(u, s, x, mask, 0, 0, |SpansFrom(u, s, 0)|);
    assert x[0..] == x;
  }

  /** The count taken on the sheltered texts is the count on the texts. */
  lemma CountsAll(u: Unicode, s: string, x: string, mask: Mask)
    requires KeepsSpans(mask, s, x) && mask == MaskOf(u, s)
    ensures |Sheltered(u, s, s, 0, 0)| == |Sheltered(u, s, x, 0, 0)|
    ensures Differences(Sheltered(u, s, s, 0, 0), Sheltered(u, s, x, 0, 0)) == Differences(s, x)
  {
    assert mask[0..] == mask;
    DifferencesSheltered(u, s, x, mask, 0, 0);
    assert s[0..] == s && x[0..] == x;
  }

  /** What the source computes: shelter, substitute, put back. */
  function Computed(u: Unicode, text: string): string {
    var spans := SpansFrom(u, text, 0);
    RestoreAll(SubstituteAll(|RULES|, Sheltered(u, text, text, 0, 0)), spans, |spans|)
  }

  /**
   `normalize_chinese_punctuation`: the count is the number of positions that the one-step
   rewriting changes; for every text free of the two key characters the result is that rewriting.
   */
  method Normalize(u: Unicode, text: string) returns (value: string, changes: nat)
    ensures value == Computed(u, text)
    ensures changes == |DifferingFrom(text, Normalized(u, text), 0)|
    ensures KeyFree(text) ==> value == Normalized(u, text)
    ensures KeyFree(text) ==>
      |value| == |text| && forall i :: 0 <= i < |text| ==> ReadsAs(MaskOf(u, text), text, value, i)
  {
    NormalizedReads(u, text);
    ghost var mask, y := MaskOf(u, text), Normalized(u, text);
    var before, spans := Shelter(u, text);
    value := before;
    for n := 0 to |RULES|
      invariant value == SubstituteAll(n, before)
    {
      value := Substitute(RULES[n], None, value);
    }
    SubstituteAllSheltered(u, text, |RULES|);
    StagesRewrite(mask, text);
    NormalizedKeepsSpans(u, text);
    CountsAll(u, text, y, mask);
    DifferencesAreCounted(text, y, 0);
    assert text[0..] == text && y[0..] == y;
    changes := CountChanges(before, value);
    ghost var sheltered := value;
    for m := 0 to |spans|
      invariant value == RestoreAll(sheltered, spans, m)
    {
      value := ReplaceAll(value, Key(m), spans[m]);
    }
    if KeyFree(text) {
      RestoresAll(u, text, y, mask);
    }
  }

  const LOOKALIKE := [KEY_OPEN, '0', KEY_CLOSE, 'w', 'w', 'w', '.', '!']

  lemma LookalikeSpan(u: Unicode)
    requires u.Valid()
    ensures Match(u, LOOKALIKE, 3) == 8
  {
    var s := LOOKALIKE;
    assert s[3..7] == "www." && s[7] == '!' && ProtectedSpans.Punctuation('!');
    assert MatchUrl(u, s, 3) == 8;
  }

  lemma LookalikeKey(u: Unicode, i: nat)
    requires u.Valid() && !u.isDigit(KEY_OPEN) && !u.isDigit(KEY_CLOSE) && i < 3
    ensures Match(u, LOOKALIKE, i) == i
  {
    var s := LOOKALIKE;
    assert s[i..i + 4][0] == s[i] && "http"[0] == 'h' && "www."[0] == 'w';
    assert MatchUrl(u, s, i) == i;
    assert RunEnd(s, 0, u.isDigit) == 0 && RunEnd(s, 2, u.isDigit) == 2 && RunEnd(s, 1, u.isDigit) <= 2;
    assert RunEnd(s, 0, IsLocal) == 0 && RunEnd(s, 1, IsLocal) == 2 && RunEnd(s, 2, IsLocal) == 2;
  }

  lemma LookalikeParts(u: Unicode)
    requires u.Valid() && !u.isDigit(KEY_OPEN) && !u.isDigit(KEY_CLOSE)
    ensures SpansFrom(u, LOOKALIKE, 0) == ["www.!"]
    ensures Sheltered(u, LOOKALIKE, LOOKALIKE, 0, 0) == Key(0) + Key(0)
  {
    var s, w := LOOKALIKE, "www.!";
    LookalikeSpan(u);
    LookalikeKey(u, 0);
    LookalikeKey(u, 1);
    LookalikeKey(u, 2);
    assert s[3..8] == w;
    assert SpansFrom(u, s, 3) == [w] by {
      assert SpansFrom(u, s, 8) == [];
    }
    assert SpansFrom(u, s, 1) == SpansFrom(u, s, 2) == [w];
    assert Sheltered(u, s, s, 3, 0) == Key(0) by {
      assert Sheltered(u, s, s, 8, 1) == [];
    }
    assert Key(0) == [KEY_OPEN, '0', KEY_CLOSE];
    assert Sheltered(u, s, s, 1, 0) == ['0'] + Sheltered(u, s, s, 2, 0);
  }

  lemma {:induction false} NothingToSubstitute(rule: Rule, prev: Option<char>, v: string)
    requires forall c :: c in v ==> c != rule.source
    ensures Substitute(rule, prev, v) == v
    decreases |v|
  {
    if v == "" {
    } else {
      assert v[0] in v && forall c :: c in v[1..] ==> c in v;
      NothingToSubstitute(rule, Some(v[0]), v[1..]);
    }
  }

  lemma {:induction false} KeysAreUntouched(n: nat, v: string)
    requires n <= |RULES| && forall c :: c in v ==> c == KEY_OPEN || c == '0' || c == KEY_CLOSE
    ensures SubstituteAll(n, v) == v
  {
    if n == 0 {
    } else {
      KeysAreUntouched(n - 1, v);
      RuleFacts(n - 1);
      NothingToSubstitute(RULES[n - 1], None, v);
    }
  }

  lemma TwoKeysReplaced(w: string)
    ensures ReplaceAll(Key(0) + Key(0), Key(0), w) == w + w
  {
    ReplaceOwnKey(0, Key(0), w);
    ReplaceOwnKey(0, [], w);
    assert Key(0) + [] == Key(0) && w + [] == w;
  }

  lemma OneSpanRestored(v: string, w: string)
    ensures RestoreAll(v, [w], 1) == ReplaceAll(v, Key(0), w)
  {
    assert RestoreAll(v, [w], 0) == v;
  }

  /**
   Not so for other texts: a key spelled out in the text is replaced like a real one, so the
   result is longer than the text and the next call would not find it unchanged.
   */
  lemma SpelledKeyIsReplaced(u: Unicode)
    requires u.Valid() && !u.isDigit(KEY_OPEN) && !u.isDigit(KEY_CLOSE)
    ensures LOOKALIKE == ['\U{e000}', '0', '\U{e001}', 'w', 'w', 'w', '.', '!']
    ensures Computed(u, LOOKALIKE) == "www.!www.!" && |Computed(u, LOOKALIKE)| != |LOOKALIKE|
  {
    var key, w := Key(0), "www.!";
    LookalikeParts(u);
    assert key == [KEY_OPEN, '0', KEY_CLOSE];
    KeysAreUntouched(|RULES|, key + key);
    TwoKeysReplaced(w);
    OneSpanRestored(key + key, w);
  }

  /** The rewritten text has the same protected spans, each verbatim. */
  lemma {:induction false} SameMask(u: Unicode, s: string, t: string, i: nat)
    requires u.Valid() && SameShape(s, t) && i <= |s|
    ensures MaskFrom(u, s, i) == MaskFrom(u, t, i)
    decreases |s| - i
  {
    SameMatch(u, s, t, i);
    if i < |s| {
      SameMask(u, s, t, if Match(u, s, i) > i then Match(u, s, i) else i + 1);
    }
  }

  /**
   For every text: the length stays, the spans are found again where they were and are
   untouched, a second application changes nothing, and a position changes only to the wide
   form of its own mark.
   */
  lemma NormalizedIsStable(u: Unicode, text: string)
    requires u.Valid()
    ensures MaskOf(u, Normalized(u, text)) == MaskOf(u, text)
    ensures KeepsSpans(MaskOf(u, text), text, Normalized(u, text))
    ensures Normalized(u, Normalized(u, text)) == Normalized(u, text)
    ensures forall i :: 0 <= i < |text| ==> Narrow(Normalized(u, text)[i]) == Narrow(text[i])
  {
    RewrittenKeepsShape(MaskOf(u, text), text);
    SameMask(u, text, Normalized(u, text), 0);
    NormalizedKeepsSpans(u, text);
    RewrittenIsStable(MaskOf(u, text), text);
  }

  /** Calling the function on its own result returns the same text and counts no change. */
  method NormalizeTwice(u: Unicode, text: string) returns (value: string, changes: nat)
    requires u.Valid() && KeyFree(text)
    ensures value == Normalized(u, text) && changes == 0
  {
    var once, _ := Normalize(u, text);
    NormalizedKeepsSpans(u, text);
    NormalizedIsStable(u, text);
    assert DifferingFrom(once, once, 0) == {};
    value, changes := Normalize(u, once);
  }
}
