/**
 The keys that stand for the protected spans, in texts that spell such a key out: exactly which
 texts the replacement of the keys damages.
 */
module PunctuationKeys {
  import opened ProtectedSpans
  import opened Decimal
  import opened Punctuation
  import opened PunctuationText

  predicate IsDec(c: char) { '0' <= c <= '9' }

  /** What is assumed of the Unicode classes: the key characters are no digits, nor what ends a key a space. */
  ghost predicate PlainKeys(u: Unicode) {
    && !u.isDigit(KEY_OPEN) && !u.isDigit(KEY_CLOSE) && !u.isSpace(KEY_CLOSE)
    && forall c :: IsDec(c) ==> !u.isSpace(c)
  }

  // ---------------------------------------------------------------- how spans begin and end

  /** Digits, and then something that neither begins nor ends a key. */
  predicate Stops(v: string) {
    v != "" && if IsDec(v[0]) then Stops(v[1..]) else v[0] != KEY_OPEN && v[0] != KEY_CLOSE
  }

  lemma {:induction false} StopsLonger(v: string, rest: string)
    requires Stops(v)
    ensures Stops(v + rest)
  {
    assert (v + rest)[1..] == v[1..] + rest;
    if IsDec(v[0]) {
      StopsLonger(v[1..], rest);
    }
  }

  /** Some character up to position `at` stops, since the one there does. */
  lemma {:induction false} StopsBefore(v: string, at: nat)
    requires at < |v| && !IsDec(v[at]) && forall j :: 0 <= j <= at ==> v[j] != KEY_OPEN && v[j] != KEY_CLOSE
    ensures Stops(v)
    decreases at
  {
    if at == 0 {
    } else {
      assert forall j :: 0 <= j < |v| - 1 ==> v[1..][j] == v[j + 1];
      StopsBefore(v[1..], at - 1);
    }
  }

  lemma {:induction false} RunHas(s: string, i: nat, p: char -> bool)
    requires i <= |s|
    ensures forall j :: i <= j < RunEnd(s, i, p) ==> p(s[j])
    ensures RunEnd(s, i, p) < |s| ==> !p(s[RunEnd(s, i, p)])
    decreases |s| - i
  {
    if i < |s| && p(s[i]) {
      RunHas(s, i + 1, p);
    }
  }

  lemma {:induction false} LabelHas(s: string, from: nat, j: nat)
    requires from <= j <= |s| && forall n :: from <= n < j ==> IsDomain(s[n])
    ensures var e := LastLabel(s, from, j); e == 0 || (e > from && forall n :: from <= n < e ==> IsDomain(s[n]))
  {
    if j <= from + 1 {
    } else if s[j - 1] == '.' && RunEnd(s, j, IsLetter) >= j + 2 {
      RunHas(s, j, IsLetter);
    } else {
      LabelHas(s, from, j - 1);
    }
  }

  /** A mail address has an "@" and no key character. */
  lemma MailHas(s: string, i: nat)
    requires i <= |s| && MatchMail(s, i) > i
    ensures forall j :: i <= j < MatchMail(s, i) ==> s[j] != KEY_OPEN && s[j] != KEY_CLOSE
    ensures exists at :: i <= at < MatchMail(s, i) && s[at] == '@'
  {
    var at := RunEnd(s, i, IsLocal);
    RunHas(s, i, IsLocal);
    RunHas(s, at + 1, IsDomain);
    LabelHas(s, at + 1, RunEnd(s, at + 1, IsDomain));
  }

  lemma {:induction false} GroupsHave(u: Unicode, s: string, e: nat, k: nat)
    requires e <= |s|
    ensures var r := NumberGroups(u, s, e, k);
      r > 0 ==> r >= e && (r > e || k > 0) && (forall j :: e <= j < r ==> s[j] == '.' || u.isDigit(s[j]))
                && (r > e ==> s[e] == '.')
    decreases |s| - e
  {
    if e < |s| && s[e] == '.' && RunEnd(s, e + 1, u.isDigit) > e + 1 {
      RunHas(s, e + 1, u.isDigit);
      GroupsHave(u, s, RunEnd(s, e + 1, u.isDigit), k + 1);
    }
  }

  /** A dotted number has a dot and no key character. */
  lemma NumberHas(u: Unicode, s: string, i: nat)
    requires PlainKeys(u) && i <= |s| && MatchNumber(u, s, i) > i
    ensures forall j :: i <= j < MatchNumber(u, s, i) ==> s[j] != KEY_OPEN && s[j] != KEY_CLOSE
    ensures exists at :: i <= at < MatchNumber(u, s, i) && s[at] == '.'
  {
    var digits := RunEnd(s, i, u.isDigit);
    RunHas(s, i, u.isDigit);
    GroupsHave(u, s, digits, 0);
    assert s[digits] == '.';
  }

  lemma {:induction false} InitialsHave(s: string, e: nat)
    requires e <= |s|
    ensures forall j :: e <= j < InitialGroups(s, e) ==> s[j] == '.' || IsUpper(s[j])
    decreases |s| - e
  {
    if e + 1 < |s| && s[e] == '.' && IsUpper(s[e + 1]) {
      InitialsHave(s, e + 2);
    }
  }

  lemma UrlStarts(u: Unicode, s: string, i: nat)
    requires i <= |s| && MatchUrl(u, s, i) > i
    ensures s[i] == 'h' || s[i] == 'w'
  {
    if HasAt(s, i, "http") {
      assert s[i..i + 4][0] == s[i];
    } else {
      assert s[i..i + 4][0] == s[i];
    }
  }

  lemma StopsSlice(s: string, i: nat, e: nat, at: nat)
    requires i <= at < e <= |s| && !IsDec(s[at])
    requires forall j :: i <= j < e ==> s[j] != KEY_OPEN && s[j] != KEY_CLOSE
    ensures Stops(s[i..e])
  {
    StopsBefore(s[i..e], at - i);
  }

  /** No span can be part of a key: it begins with digits and something else, if not with something else. */
  lemma SpanStops(u: Unicode, s: string, i: nat)
    requires PlainKeys(u) && i <= |s| && Match(u, s, i) > i
    ensures Stops(s[i..Match(u, s, i)])
  {
    var e := Match(u, s, i);
    if MatchUrl(u, s, i) > i {
      UrlStarts(u, s, i);
      assert s[i..e][0] == s[i];
    } else if MatchMail(s, i) > i {
      MailHas(s, i);
      var at :| i <= at < e && s[at] == '@';
      StopsSlice(s, i, e, at);
    } else if MatchNumber(u, s, i) > i {
      NumberHas(u, s, i);
      var at :| i <= at < e && s[at] == '.';
      StopsSlice(s, i, e, at);
    } else {
      assert s[i..e][0] == s[i];
    }
  }

  lemma OnlyUrls(u: Unicode, s: string, i: nat, p: nat)
    requires PlainKeys(u) && i <= |s| && i <= p < Match(u, s, i) && s[p] == KEY_OPEN
    ensures MatchUrl(u, s, i) > i
  {
    if MatchUrl(u, s, i) > i {
    } else if MatchMail(s, i) > i {
      MailHas(s, i);
    } else if MatchNumber(u, s, i) > i {
      NumberHas(u, s, i);
    } else {
      InitialsHave(s, i + 1);
    }
  }

  /** Only a URL can hold the start of a key, and what follows the URL cannot go on with it. */
  lemma SpanEnds(u: Unicode, s: string, i: nat, p: nat)
    requires PlainKeys(u) && i <= |s| && i <= p < Match(u, s, i) && s[p] == KEY_OPEN
    ensures var e := Match(u, s, i); e == |s| || (!IsDec(s[e]) && s[e] != KEY_CLOSE)
  {
    OnlyUrls(u, s, i, p);
    RunHas(s, UrlBody(s, i), UrlChar(u));
  }

  // ---------------------------------------------------------------- keys in a text

  /** The rest of a key after some of its characters. */
  predicate IsTail(t: string) {
    t != "" && if IsDec(t[0]) then IsTail(t[1..]) else t == [KEY_CLOSE]
  }

  lemma {:induction false} DigitsTail(d: string)
    requires forall c :: c in d ==> IsDec(c)
    ensures IsTail(d + [KEY_CLOSE])
  {
    if d == "" {
    } else {
      assert (d + [KEY_CLOSE])[1..] == d[1..] + [KEY_CLOSE];
      assert forall c :: c in d[1..] ==> c in d;
      DigitsTail(d[1..]);
    }
  }

  lemma KeyTail(m: nat)
    ensures Key(m)[0] == KEY_OPEN && IsTail(Key(m)[1..])
    ensures forall j :: 1 <= j < |Key(m)| ==> IsDec(Key(m)[j]) || Key(m)[j] == KEY_CLOSE
  {
    DigitsAreDigits(m);
    DigitsTail(Digits(m));
    assert Key(m)[1..] == Digits(m) + [KEY_CLOSE];
  }

  lemma {:induction false} StopsIsNoTail(v: string, t: string)
    requires Stops(v) && IsTail(t)
    ensures !(t <= v)
  {
    if t <= v {
      assert t[0] == v[0];
      if IsDec(v[0]) {
        assert t[1..] <= v[1..];
        StopsIsNoTail(v[1..], t[1..]);
      }
    }
  }

  /** How the text with the first m keys put back begins. */
  lemma MixedStart(u: Unicode, x: string, i: nat, k: nat, m: nat)
    requires i <= |x|
    ensures var v := Mixed(u, x, x, i, k, m);
      if i == |x| then v == "" else v != "" && (v[0] == x[i] || v[0] == KEY_OPEN)
  {
    if i < |x| && Match(u, x, i) > i {
      assert x[i..Match(u, x, i)][0] == x[i];
    }
  }

  /** The rest of a key stands in that text where it stands in the text itself. */
  lemma {:induction false} TailAlike(u: Unicode, x: string, i: nat, k: nat, m: nat, t: string)
    requires PlainKeys(u) && i <= |x| && IsTail(t)
    ensures t <= Mixed(u, x, x, i, k, m) <==> t <= x[i..]
    decreases |x| - i
  {
    var v := Mixed(u, x, x, i, k, m);
    if i == |x| {
    } else if Match(u, x, i) > i {
      var e := Match(u, x, i);
      SpanStops(u, x, i);
      assert x[i..] == x[i..e] + x[e..];
      StopsLonger(x[i..e], x[e..]);
      StopsIsNoTail(x[i..], t);
      if k < m {
        StopsLonger(x[i..e], Mixed(u, x, x, e, k + 1, m));
        StopsIsNoTail(v, t);
      } else {
        assert v[0] == KEY_OPEN;
      }
    } else {
      var rest := Mixed(u, x, x, i + 1, k, m);
      assert v[0] == x[i] == x[i..][0] && v[1..] == rest && x[i..][1..] == x[i + 1..];
      PrefixStep(t, v);
      PrefixStep(t, x[i..]);
      if IsDec(t[0]) {
        TailAlike(u, x, i + 1, k, m, t[1..]);
      }
    }
  }

  lemma PrefixStep(t: string, v: string)
    requires t != "" && v != ""
    ensures t <= v <==> t[0] == v[0] && t[1..] <= v[1..]
  {
    if t[0] == v[0] && t[1..] <= v[1..] {
      assert t == [t[0]] + t[1..] && v == [v[0]] + v[1..];
    }
  }

  lemma KeyAlike(u: Unicode, x: string, i: nat, k: nat, m: nat, m': nat)
    requires PlainKeys(u) && i < |x| && Match(u, x, i) == i
    ensures Key(m') <= Mixed(u, x, x, i, k, m) <==> Key(m') <= x[i..]
  {
    var v := Mixed(u, x, x, i, k, m);
    KeyTail(m');
    TailAlike(u, x, i + 1, k, m, Key(m')[1..]);
    assert v[1..] == Mixed(u, x, x, i + 1, k, m) && x[i..][1..] == x[i + 1..];
    PrefixStep(Key(m'), v);
    PrefixStep(Key(m'), x[i..]);
  }

  /** What does not go on with a key does not belong to one. */
  lemma FitsIn(a: string, b: string, m: nat)
    requires a != "" && (b == "" || (!IsDec(b[0]) && b[0] != KEY_CLOSE))
    ensures Key(m) <= a + b <==> Key(m) <= a
  {
    KeyTail(m);
    assert b != "" ==> (a + b)[|a|] == b[0];
  }

  /** A key that starts in a span is one of the text itself. */
  lemma SpanKeyAlike(u: Unicode, x: string, i: nat, p: nat, k: nat, m: nat, m': nat)
    requires PlainKeys(u) && i <= |x| && i <= p < Match(u, x, i)
    ensures var e := Match(u, x, i); Key(m') <= x[p..e] + Mixed(u, x, x, e, k, m) <==> Key(m') <= x[p..]
  {
    var e := Match(u, x, i);
    var rest := Mixed(u, x, x, e, k, m);
    assert x[p..] == x[p..e] + x[e..];
    KeyTail(m');
    if x[p] == KEY_OPEN {
      SpanEnds(u, x, i, p);
      MixedStart(u, x, e, k, m);
      FitsIn(x[p..e], rest, m');
      FitsIn(x[p..e], x[e..], m');
    } else {
      assert (x[p..e] + rest)[0] == x[p] && x[p..][0] == x[p];
    }
  }

  // ---------------------------------------------------------------- which keys are replaced by mistake

  /** The number of the span that covers position p, counted from k on at i; -1 when none does. */
  function SpanNo(u: Unicode, x: string, i: nat, k: nat, p: nat): (n: int)
    requires i <= p < |x|
    ensures n == -1 || n >= k
    decreases |x| - i
  {
    var e := Match(u, x, i);
    if e > i then (if p < e then k else SpanNo(u, x, e, k + 1, p))
    else if p == i then -1 else SpanNo(u, x, i + 1, k, p)
  }

  /** From i on the text spells out the key of span m, outside the spans or in an earlier one. */
  ghost predicate Spells(u: Unicode, x: string, i: nat, k: nat, m: nat)
    requires i <= |x|
  {
    exists p: nat :: i <= p < |x| && Key(m) <= x[p..] && SpanNo(u, x, i, k, p) < m
  }

  lemma SpelledAtSpan(u: Unicode, x: string, i: nat, k: nat, m: nat)
    requires i <= |x| && Match(u, x, i) > i && Spells(u, x, i, k, m)
    ensures var e := Match(u, x, i);
      (k < m && exists p: nat :: i <= p < e && Key(m) <= x[p..]) || Spells(u, x, e, k + 1, m)
  {
    var e := Match(u, x, i);
    var p: nat :| i <= p < |x| && Key(m) <= x[p..] && SpanNo(u, x, i, k, p) < m;
    if p >= e {
      assert SpanNo(u, x, e, k + 1, p) < m;
    }
  }

  lemma SpellsBehindSpan(u: Unicode, x: string, i: nat, k: nat, m: nat)
    requires i <= |x| && Match(u, x, i) > i && Spells(u, x, Match(u, x, i), k + 1, m)
    ensures Spells(u, x, i, k, m)
  {
    var e := Match(u, x, i);
    var p: nat :| e <= p < |x| && Key(m) <= x[p..] && SpanNo(u, x, e, k + 1, p) < m;
    assert SpanNo(u, x, i, k, p) < m;
  }

  lemma SpellsInSpan(u: Unicode, x: string, i: nat, k: nat, m: nat, p: nat)
    requires i <= |x| && i <= p < Match(u, x, i) && k < m && Key(m) <= x[p..]
    ensures Spells(u, x, i, k, m)
  {
    assert SpanNo(u, x, i, k, p) < m;
  }

  lemma SpellsAtOpen(u: Unicode, x: string, i: nat, k: nat, m: nat)
    requires i < |x| && Match(u, x, i) == i
    ensures Spells(u, x, i, k, m) <==> Key(m) <= x[i..] || Spells(u, x, i + 1, k, m)
  {
    if Spells(u, x, i, k, m) {
      var p: nat :| i <= p < |x| && Key(m) <= x[p..] && SpanNo(u, x, i, k, p) < m;
      assert p > i ==> SpanNo(u, x, i + 1, k, p) < m;
    }
    if Spells(u, x, i + 1, k, m) {
      var p: nat :| i + 1 <= p < |x| && Key(m) <= x[p..] && SpanNo(u, x, i + 1, k, p) < m;
      assert SpanNo(u, x, i, k, p) < m;
    }
    assert SpanNo(u, x, i, k, i) < m;
  }

  // ---------------------------------------------------------------- one replacement

  lemma {:induction false} ReplaceOverBlock(block: string, rest: string, key: string, original: string)
    requires key != "" && forall p: nat :: p < |block| ==> !(key <= block[p..] + rest)
    ensures ReplaceAll(block + rest, key, original) == block + ReplaceAll(rest, key, original)
    decreases |block|
  {
    if block == "" {
      assert block + rest == rest;
    } else {
      var v := block + rest;
      assert block[0..] + rest == v && v[1..] == block[1..] + rest && v[0] == block[0];
      forall p: nat | p < |block[1..]| ensures !(key <= block[1..][p..] + rest) {
        assert block[1..][p..] == block[p + 1..];
      }
      ReplaceOverBlock(block[1..], rest, key, original);
      var tail := ReplaceAll(rest, key, original);
      assert [block[0]] + (block[1..] + tail) == block + tail;
    }
  }

  /** The first place in the block where the key starts, and what replacing leaves in front of it and there. */
  lemma {:induction false} FirstInBlock(block: string, rest: string, key: string, original: string)
    returns (q: nat, more: string)
    requires key != "" && exists p: nat :: p < |block| && key <= block[p..] + rest
    ensures q < |block| && key <= block[q..] + rest
    ensures ReplaceAll(block + rest, key, original) == block[..q] + (original + more)
    decreases |block|
  {
    assert block[0..] + rest == block + rest;
    if key <= block + rest {
      q, more := 0, ReplaceAll((block + rest)[|key|..], key, original);
    } else {
      var p: nat :| p < |block| && key <= block[p..] + rest;
      assert p > 0 && block[1..][p - 1..] == block[p..];
      q, more := FirstInBlock(block[1..], rest, key, original);
      OneBefore(block, rest, key, original, q, original + more);
      q := q + 1;
    }
  }

  lemma OneBefore(block: string, rest: string, key: string, original: string, q: nat, w: string)
    requires block != "" && key != "" && q < |block[1..]| && !(key <= block + rest)
    requires ReplaceAll(block[1..] + rest, key, original) == block[1..][..q] + w
    ensures block[1..][q..] == block[q + 1..]
    ensures ReplaceAll(block + rest, key, original) == block[..q + 1] + w
  {
    var v := block + rest;
    assert v[1..] == block[1..] + rest && v[0] == block[0];
    assert [block[0]] + (block[1..][..q] + w) == block[..q + 1] + w;
  }

  /** A text that stops still stops after any replacement: no key starts before that. */
  lemma {:induction false} StopsStays(v: string, m: nat, original: string)
    requires Stops(v)
    ensures Stops(ReplaceAll(v, Key(m), original))
    decreases |v|
  {
    var r := ReplaceAll(v, Key(m), original);
    assert r[0] == v[0] && r[1..] == ReplaceAll(v[1..], Key(m), original);
    if IsDec(v[0]) {
      StopsStays(v[1..], m, original);
    }
  }

  /**
   v begins like the text from i on with the first m keys put back, up to a place where the text
   has the start of a key and v does not.
   */
  ghost predicate Wrong(u: Unicode, x: string, i: nat, k: nat, m: nat, v: string)
    requires i <= |x|
    decreases |x| - i, 1
  {
    i < |x| &&
    if Match(u, x, i) > i then
      WrongFrom(u, x, i, Match(u, x, i), k, m, v)
    else
      (x[i] == KEY_OPEN && Stops(v)) || (v != "" && v[0] == x[i] && Wrong(u, x, i + 1, k, m, v[1..]))
  }

  /** So it is in the span from i to e, whose key is the k-th, or after it. */
  ghost predicate WrongFrom(u: Unicode, x: string, i: nat, e: nat, k: nat, m: nat, v: string)
    requires i < e <= |x|
    decreases |x| - i, 0
  {
    if k < m then WrongIn(x, i, e, v) || (x[i..e] <= v && Wrong(u, x, e, k + 1, m, v[e - i..]))
    else Key(k) <= v && Wrong(u, x, e, k + 1, m, v[|Key(k)|..])
  }

  /** So it is at some place of the span. */
  ghost predicate WrongIn(x: string, i: nat, e: nat, v: string)
    requires i <= e <= |x|
  {
    exists p: nat :: i <= p < e && x[p] == KEY_OPEN && x[i..p] <= v && Stops(v[p - i..])
  }

  lemma WrongInHere(x: string, i: nat, e: nat, p: nat, w: string)
    requires i <= p < e <= |x| && x[p] == KEY_OPEN && Stops(w)
    ensures WrongIn(x, i, e, x[i..p] + w)
  {
    assert (x[i..p] + w)[p - i..] == w;
  }

  /** Replacing a key in a span of the text goes wrong there, if a key starts there at all. */
  lemma ReplaceInSpan(x: string, i: nat, e: nat, b: nat, rest: string, m: nat, original: string)
    requires i <= b <= e <= |x| && Stops(original)
    requires exists p: nat :: p < b - i && Key(m) <= x[i..b][p..] + rest
    ensures WrongIn(x, i, e, ReplaceAll(x[i..b] + rest, Key(m), original))
  {
    var block := x[i..b];
    var q, more := FirstInBlock(block, rest, Key(m), original);
    assert (block[q..] + rest)[0] == x[i + q];
    StopsLonger(original, more);
    assert block[..q] == x[i..i + q];
    WrongInHere(x, i, e, i + q, original + more);
  }

  lemma SplitOff(front: string, v: string)
    requires front <= v
    ensures v == front + v[|front|..]
  {
  }

  lemma WrongInAt(x: string, i: nat, e: nat, p: nat, w: string, m: nat, original: string)
    requires i <= p < e <= |x| && Stops(original) && Stops(w) && x[p] == KEY_OPEN
    ensures WrongIn(x, i, e, ReplaceAll(x[i..p] + w, Key(m), original))
  {
    var block := x[i..p];
    if exists q: nat :: q < |block| && Key(m) <= block[q..] + w {
      ReplaceInSpan(x, i, e, p, w, m, original);
    } else {
      ReplaceOverBlock(block, w, Key(m), original);
      StopsStays(w, m, original);
      WrongInHere(x, i, e, p, ReplaceAll(w, Key(m), original));
    }
  }

  lemma WrongInStays(x: string, i: nat, e: nat, v: string, m: nat, original: string)
    requires i <= e <= |x| && Stops(original) && WrongIn(x, i, e, v)
    ensures WrongIn(x, i, e, ReplaceAll(v, Key(m), original))
  {
    var p: nat :| i <= p < e && x[p] == KEY_OPEN && x[i..p] <= v && Stops(v[p - i..]);
    SplitOff(x[i..p], v);
    WrongInAt(x, i, e, p, v[p - i..], m, original);
  }

  /** A span put back, and wrong after it. */
  lemma WrongBehindSpan(u: Unicode, x: string, i: nat, k: nat, m: nat, w: string)
    requires i <= |x| && Match(u, x, i) > i && k < m && Wrong(u, x, Match(u, x, i), k + 1, m, w)
    ensures Wrong(u, x, i, k, m, x[i..Match(u, x, i)] + w)
  {
    var e := Match(u, x, i);
    assert (x[i..e] + w)[e - i..] == w;
  }

  /** A key not yet replaced, and wrong after it. */
  lemma WrongBehindKey(u: Unicode, x: string, i: nat, k: nat, m: nat, w: string)
    requires i <= |x| && Match(u, x, i) > i && k >= m && Wrong(u, x, Match(u, x, i), k + 1, m, w)
    ensures Wrong(u, x, i, k, m, Key(k) + w)
  {
    assert (Key(k) + w)[|Key(k)|..] == w;
  }

  /** One step at a span that is put back already: `w` is what follows it. */
  lemma SpanStep(u: Unicode, x: string, i: nat, k: nat, m: nat, w: string, original: string)
    requires i <= |x| && Match(u, x, i) > i && k < m && Stops(original)
    requires var e := Match(u, x, i);
      (exists p: nat :: p < e - i && Key(m) <= x[i..e][p..] + w)
      || Wrong(u, x, e, k + 1, m + 1, ReplaceAll(w, Key(m), original))
    ensures Wrong(u, x, i, k, m + 1, ReplaceAll(x[i..Match(u, x, i)] + w, Key(m), original))
  {
    var e := Match(u, x, i);
    if exists p: nat :: p < e - i && Key(m) <= x[i..e][p..] + w {
      ReplaceInSpan(x, i, e, e, w, m, original);
    } else {
      ReplaceOverBlock(x[i..e], w, Key(m), original);
      WrongBehindSpan(u, x, i, k, m + 1, ReplaceAll(w, Key(m), original));
    }
  }

  /** One step at the key of a span. */
  lemma KeyStep(u: Unicode, x: string, i: nat, k: nat, m: nat, w: string, original: string)
    requires i <= |x| && Match(u, x, i) > i && k >= m && (k == m ==> original == x[i..Match(u, x, i)])
    requires Wrong(u, x, Match(u, x, i), k + 1, m + 1, ReplaceAll(w, Key(m), original))
    ensures Wrong(u, x, i, k, m + 1, ReplaceAll(Key(k) + w, Key(m), original))
  {
    if k == m {
      ReplaceOwnKey(m, w, original);
      WrongBehindSpan(u, x, i, k, m + 1, ReplaceAll(w, Key(m), original));
    } else {
      ReplaceOtherKey(k, m, w, original);
      WrongBehindKey(u, x, i, k, m + 1, ReplaceAll(w, Key(m), original));
    }
  }

  /** One step at a character outside the spans. */
  lemma OpenStep(u: Unicode, x: string, i: nat, k: nat, m: nat, w: string, original: string)
    requires i < |x| && Match(u, x, i) == i && Stops(original)
    requires Key(m) <= [x[i]] + w || Wrong(u, x, i + 1, k, m + 1, ReplaceAll(w, Key(m), original))
    ensures Wrong(u, x, i, k, m + 1, ReplaceAll([x[i]] + w, Key(m), original))
  {
    var v := [x[i]] + w;
    if Key(m) <= v {
      assert v[0] == KEY_OPEN;
      StopsLonger(original, ReplaceAll(v[|Key(m)|..], Key(m), original));
    } else {
      assert v[1..] == w;
      var r := ReplaceAll(v, Key(m), original);
      assert r[0] == x[i] && r[1..] == ReplaceAll(w, Key(m), original);
    }
  }

  /** The spans of the text from i on are those from number k on. */
  ghost predicate SpansAre(u: Unicode, x: string, i: nat, k: nat, spans: seq<string>)
    requires i <= |x|
  {
    k <= |spans| && SpansFrom(u, x, i) == spans[k..] && forall m: nat :: m < |spans| ==> Stops(spans[m])
  }

  lemma NextSpan(u: Unicode, x: string, i: nat, k: nat, spans: seq<string>)
    requires i < |x| && SpansAre(u, x, i, k, spans)
    ensures var e := Match(u, x, i);
      if e > i then k < |spans| && spans[k] == x[i..e] && SpansAre(u, x, e, k + 1, spans)
      else SpansAre(u, x, i + 1, k, spans)
  {
    if Match(u, x, i) > i {
      assert spans[k..][0] == spans[k] && spans[k..][1..] == spans[k + 1..];
    }
  }

  /** What went wrong is not put right by a later replacement. */
  lemma {:induction false} WrongStays(u: Unicode, x: string, spans: seq<string>, i: nat, k: nat, m: nat, v: string)
    requires i <= |x| && SpansAre(u, x, i, k, spans) && m < |spans| && Wrong(u, x, i, k, m, v)
    ensures Wrong(u, x, i, k, m + 1, ReplaceAll(v, Key(m), spans[m]))
    decreases |x| - i, 1
  {
    if Match(u, x, i) > i {
      WrongStaysAtSpan(u, x, spans, i, k, m, v);
    } else {
      WrongStaysAtOpen(u, x, spans, i, k, m, v);
    }
  }

  lemma {:induction false} WrongStaysAtOpen(u: Unicode, x: string, spans: seq<string>,
                                             i: nat, k: nat, m: nat, v: string)
    requires i < |x| && Match(u, x, i) == i && m < |spans| && Wrong(u, x, i, k, m, v)
    requires SpansAre(u, x, i, k, spans)
    ensures Wrong(u, x, i, k, m + 1, ReplaceAll(v, Key(m), spans[m]))
    decreases |x| - i, 0
  {
    NextSpan(u, x, i, k, spans);
    if x[i] == KEY_OPEN && Stops(v) {
      StopsStays(v, m, spans[m]);
    } else {
      var w := v[1..];
      assert v == [x[i]] + w;
      WrongStays(u, x, spans, i + 1, k, m, w);
      OpenStep(u, x, i, k, m, w, spans[m]);
    }
  }

  lemma {:induction false} WrongStaysAtSpan(u: Unicode, x: string, spans: seq<string>,
                                             i: nat, k: nat, m: nat, v: string)
    requires i < |x| && Match(u, x, i) > i && m < |spans| && WrongFrom(u, x, i, Match(u, x, i), k, m, v)
    requires SpansAre(u, x, i, k, spans)
    ensures Wrong(u, x, i, k, m + 1, ReplaceAll(v, Key(m), spans[m]))
    decreases |x| - i, 0
  {
    NextSpan(u, x, i, k, spans);
    if k >= m {
      var w := v[|Key(k)|..];
      SplitOff(Key(k), v);
      WrongStays(u, x, spans, Match(u, x, i), k + 1, m, w);
      KeyStep(u, x, i, k, m, w, spans[m]);
    } else if WrongIn(x, i, Match(u, x, i), v) {
      WrongInStays(x, i, Match(u, x, i), v, m, spans[m]);
    } else {
      var w := v[Match(u, x, i) - i..];
      SplitOff(x[i..Match(u, x, i)], v);
      WrongStays(u, x, spans, Match(u, x, i), k + 1, m, w);
      SpanStep(u, x, i, k, m, w, spans[m]);
    }
  }

  /** From a place in a span on: as the text has it, so has the span with what follows it. */
  lemma SliceKeyAlike(u: Unicode, x: string, i: nat, p: nat, k: nat, m: nat)
    requires PlainKeys(u) && i < |x| && i <= p < Match(u, x, i)
    ensures var e := Match(u, x, i);
      Key(m) <= x[i..e][p - i..] + Mixed(u, x, x, e, k + 1, m) <==> Key(m) <= x[p..]
  {
    SpanKeyAlike(u, x, i, p, k + 1, m, m);
    assert x[i..Match(u, x, i)][p - i..] == x[p..Match(u, x, i)];
  }

  lemma SpanHasKey(u: Unicode, x: string, i: nat, k: nat, m: nat)
    requires PlainKeys(u) && i < |x| && exists p: nat :: i <= p < Match(u, x, i) && Key(m) <= x[p..]
    ensures var e := Match(u, x, i);
      exists p: nat :: p < e - i && Key(m) <= x[i..e][p..] + Mixed(u, x, x, e, k + 1, m)
  {
    var p: nat :| i <= p < Match(u, x, i) && Key(m) <= x[p..];
    SliceKeyAlike(u, x, i, p, k, m);
  }

  /** Where the text spells out the key that is replaced next, the replacement goes wrong. */
  lemma {:induction false} SpellingSpoils(u: Unicode, x: string, spans: seq<string>, i: nat, k: nat, m: nat)
    requires PlainKeys(u) && i <= |x| && SpansAre(u, x, i, k, spans) && m < |spans| && Spells(u, x, i, k, m)
    ensures Wrong(u, x, i, k, m + 1, ReplaceAll(Mixed(u, x, x, i, k, m), Key(m), spans[m]))
    decreases |x| - i, 1
  {
    NextSpan(u, x, i, k, spans);
    if Match(u, x, i) > i {
      SpellingSpoilsAtSpan(u, x, spans, i, k, m);
    } else {
      SpellsAtOpen(u, x, i, k, m);
      KeyAlike(u, x, i, k, m, m);
      if !(Key(m) <= x[i..]) {
        SpellingSpoils(u, x, spans, i + 1, k, m);
      }
      OpenStep(u, x, i, k, m, Mixed(u, x, x, i + 1, k, m), spans[m]);
    }
  }

  lemma {:induction false} SpellingSpoilsAtSpan(u: Unicode, x: string, spans: seq<string>, i: nat, k: nat, m: nat)
    requires PlainKeys(u) && i < |x| && Match(u, x, i) > i && SpansAre(u, x, i, k, spans)
    requires m < |spans| && Spells(u, x, i, k, m)
    ensures Wrong(u, x, i, k, m + 1, ReplaceAll(Mixed(u, x, x, i, k, m), Key(m), spans[m]))
    decreases |x| - i, 0
  {
    var e := Match(u, x, i);
    var w := Mixed(u, x, x, e, k + 1, m);
    NextSpan(u, x, i, k, spans);
    SpelledAtSpan(u, x, i, k, m);
    if Spells(u, x, e, k + 1, m) {
      SpellingSpoils(u, x, spans, e, k + 1, m);
    } else {
      SpanHasKey(u, x, i, k, m);
    }
    if k < m {
      SpanStep(u, x, i, k, m, w, spans[m]);
    } else {
      KeyStep(u, x, i, k, m, w, spans[m]);
    }
  }

  lemma SpanHasNoKey(u: Unicode, x: string, i: nat, k: nat, m: nat)
    requires PlainKeys(u) && i < |x| && forall p: nat :: i <= p < Match(u, x, i) ==> !(Key(m) <= x[p..])
    ensures var e := Match(u, x, i);
      forall p: nat :: p < e - i ==> !(Key(m) <= x[i..e][p..] + Mixed(u, x, x, e, k + 1, m))
  {
    var e := Match(u, x, i);
    forall p: nat | p < e - i ensures !(Key(m) <= x[i..e][p..] + Mixed(u, x, x, e, k + 1, m)) {
      SliceKeyAlike(u, x, i, i + p, k, m);
    }
  }

  /** One replacement at a span, where nothing is spelled out. */
  lemma SpanRestores(u: Unicode, x: string, i: nat, k: nat, m: nat, original: string)
    requires PlainKeys(u) && i < |x| && Match(u, x, i) > i && (k == m ==> original == x[i..Match(u, x, i)])
    requires k < m ==> forall p: nat :: i <= p < Match(u, x, i) ==> !(Key(m) <= x[p..])
    requires var e := Match(u, x, i);
      ReplaceAll(Mixed(u, x, x, e, k + 1, m), Key(m), original) == Mixed(u, x, x, e, k + 1, m + 1)
    ensures ReplaceAll(Mixed(u, x, x, i, k, m), Key(m), original) == Mixed(u, x, x, i, k, m + 1)
  {
    var e := Match(u, x, i);
    var w := Mixed(u, x, x, e, k + 1, m);
    if k < m {
      SpanHasNoKey(u, x, i, k, m);
      ReplaceOverBlock(x[i..e], w, Key(m), original);
    } else if k == m {
      ReplaceOwnKey(m, w, original);
    } else {
      ReplaceOtherKey(k, m, w, original);
    }
  }

  /** One replacement at a character outside the spans, where no key starts. */
  lemma OpenRestores(u: Unicode, x: string, i: nat, k: nat, m: nat, original: string)
    requires PlainKeys(u) && i < |x| && Match(u, x, i) == i && !(Key(m) <= x[i..])
    requires ReplaceAll(Mixed(u, x, x, i + 1, k, m), Key(m), original) == Mixed(u, x, x, i + 1, k, m + 1)
    ensures ReplaceAll(Mixed(u, x, x, i, k, m), Key(m), original) == Mixed(u, x, x, i, k, m + 1)
  {
    KeyAlike(u, x, i, k, m, m);
    assert Mixed(u, x, x, i, k, m)[1..] == Mixed(u, x, x, i + 1, k, m);
  }

  /** Otherwise it puts back one span and touches nothing else. */
  lemma {:induction false} NotSpelledRestores(u: Unicode, x: string, spans: seq<string>, i: nat, k: nat, m: nat)
    requires PlainKeys(u) && i <= |x| && SpansAre(u, x, i, k, spans) && m < |spans| && !Spells(u, x, i, k, m)
    ensures ReplaceAll(Mixed(u, x, x, i, k, m), Key(m), spans[m]) == Mixed(u, x, x, i, k, m + 1)
    decreases |x| - i
  {
    if i == |x| {
    } else {
      var e := Match(u, x, i);
      NextSpan(u, x, i, k, spans);
      if e > i {
        NotSpelledBehind(u, x, i, k, m);
        NotSpelledRestores(u, x, spans, e, k + 1, m);
        SpanRestores(u, x, i, k, m, spans[m]);
      } else {
        SpellsAtOpen(u, x, i, k, m);
        NotSpelledRestores(u, x, spans, i + 1, k, m);
        OpenRestores(u, x, i, k, m, spans[m]);
      }
    }
  }

  lemma NotSpelledBehind(u: Unicode, x: string, i: nat, k: nat, m: nat)
    requires i < |x| && Match(u, x, i) > i && !Spells(u, x, i, k, m)
    ensures !Spells(u, x, Match(u, x, i), k + 1, m)
    ensures k < m ==> forall p: nat :: i <= p < Match(u, x, i) ==> !(Key(m) <= x[p..])
  {
    if Spells(u, x, Match(u, x, i), k + 1, m) {
      SpellsBehindSpan(u, x, i, k, m);
    }
    forall p: nat | k < m && i <= p < Match(u, x, i) ensures !(Key(m) <= x[p..]) {
      if Key(m) <= x[p..] {
        SpellsInSpan(u, x, i, k, m, p);
      }
    }
  }

  lemma WrongInIsNot(x: string, i: nat, e: nat, v: string)
    requires i <= e <= |x| && WrongIn(x, i, e, v)
    ensures v != x[i..]
  {
    var p: nat :| i <= p < e && x[p] == KEY_OPEN && x[i..p] <= v && Stops(v[p - i..]);
    assert v[p - i..][0] == v[p - i] && x[i..][p - i] == x[p];
  }

  lemma NotBehind(x: string, i: nat, e: nat, v: string)
    requires i <= e <= |x| && e - i <= |v| && v[e - i..] != x[e..]
    ensures v != x[i..]
  {
    assert x[i..][e - i..] == x[e..];
  }

  lemma {:induction false} WrongIsNot(u: Unicode, x: string, i: nat, k: nat, m: nat, v: string)
    requires i <= |x| && k + |SpansFrom(u, x, i)| <= m && Wrong(u, x, i, k, m, v)
    ensures v != x[i..]
    decreases |x| - i, 1
  {
    var e := Match(u, x, i);
    if e > i {
      SpansAtSpan(u, x, i, e);
      assert WrongFrom(u, x, i, e, k, m, v);
      WrongAtSpanIsNot(u, x, i, e, k, m, v);
    } else {
      WrongAtOpen(u, x, i, k, m, v);
      WrongAtOpenIsNot(u, x, i, k, m, v);
    }
  }

  lemma WrongAtOpen(u: Unicode, x: string, i: nat, k: nat, m: nat, v: string)
    requires i <= |x| && Match(u, x, i) == i && k + |SpansFrom(u, x, i)| <= m && Wrong(u, x, i, k, m, v)
    ensures i < |x| && k + |SpansFrom(u, x, i + 1)| <= m
    ensures (x[i] == KEY_OPEN && Stops(v)) || (v != "" && v[0] == x[i] && Wrong(u, x, i + 1, k, m, v[1..]))
  {
  }

  lemma SpansAtSpan(u: Unicode, x: string, i: nat, e: nat)
    requires i <= |x| && i < e == Match(u, x, i)
    ensures |SpansFrom(u, x, i)| == 1 + |SpansFrom(u, x, e)|
  {
  }

  lemma {:induction false} WrongAtOpenIsNot(u: Unicode, x: string, i: nat, k: nat, m: nat, v: string)
    requires i < |x| && k + |SpansFrom(u, x, i + 1)| <= m
    requires (x[i] == KEY_OPEN && Stops(v)) || (v != "" && v[0] == x[i] && Wrong(u, x, i + 1, k, m, v[1..]))
    ensures v != x[i..]
    decreases |x| - i, 0
  {
    if x[i] == KEY_OPEN && Stops(v) {
      assert x[i..][0] == x[i];
    } else {
      WrongIsNot(u, x, i + 1, k, m, v[1..]);
      NotBehind(x, i, i + 1, v);
    }
  }

  lemma {:induction false} WrongAtSpanIsNot(u: Unicode, x: string, i: nat, e: nat, k: nat, m: nat, v: string)
    requires i < e <= |x| && k + 1 + |SpansFrom(u, x, e)| <= m && WrongFrom(u, x, i, e, k, m, v)
    ensures v != x[i..]
    decreases |x| - i, 0
  {
    if WrongIn(x, i, e, v) {
      WrongInIsNot(x, i, e, v);
    } else {
      WrongIsNot(u, x, e, k + 1, m, v[e - i..]);
      NotBehind(x, i, e, v);
    }
  }

  // ---------------------------------------------------------------- all replacements

  lemma {:induction false} AllStop(u: Unicode, x: string, i: nat)
    requires PlainKeys(u) && i <= |x|
    ensures forall m: nat :: m < |SpansFrom(u, x, i)| ==> Stops(SpansFrom(u, x, i)[m])
    decreases |x| - i
  {
    if i == |x| {
    } else if Match(u, x, i) > i {
      SpanStops(u, x, i);
      AllStop(u, x, Match(u, x, i));
    } else {
      AllStop(u, x, i + 1);
    }
  }

  /** After m replacements the text is as it should be, or wrong for good if one of the keys was spelled out. */
  lemma {:induction false} RestoresOrSpoils(u: Unicode, x: string, m: nat)
    requires PlainKeys(u) && m <= |SpansFrom(u, x, 0)|
    ensures var v := RestoreAll(Sheltered(u, x, x, 0, 0), SpansFrom(u, x, 0), m);
      if exists j: nat :: j < m && Spells(u, x, 0, 0, j) then Wrong(u, x, 0, 0, m, v) else v == Mixed(u, x, x, 0, 0, m)
  {
    var spans := SpansFrom(u, x, 0);
    if m == 0 {
      MixedNone(u, x, x, 0, 0);
    } else {
      var v := RestoreAll(Sheltered(u, x, x, 0, 0), spans, m - 1);
      RestoresOrSpoils(u, x, m - 1);
      AllStop(u, x, 0);
      assert SpansAre(u, x, 0, 0, spans);
      if exists j: nat :: j < m - 1 && Spells(u, x, 0, 0, j) {
        WrongStays(u, x, spans, 0, 0, m - 1, v);
      } else if Spells(u, x, 0, 0, m - 1) {
        SpellingSpoils(u, x, spans, 0, 0, m - 1);
      } else {
        NotSpelledRestores(u, x, spans, 0, 0, m - 1);
      }
    }
  }

  /**
   The text spells out a key that is replaced by mistake: that of some span, outside the spans or
   in a span before it.
   */
  ghost predicate Misleads(u: Unicode, x: string) {
    exists m: nat, p: nat ::
      m < |SpansFrom(u, x, 0)| && p < |x| && HasAt(x, p, Key(m)) && SpanNo(u, x, 0, 0, p) < m
  }

  lemma MisleadsIff(u: Unicode, x: string)
    ensures Misleads(u, x) <==> exists m: nat :: m < |SpansFrom(u, x, 0)| && Spells(u, x, 0, 0, m)
  {
    forall m: nat, p: nat | p < |x| ensures HasAt(x, p, Key(m)) <==> Key(m) <= x[p..] {
      HasAtIsPrefix(x, p, Key(m));
    }
    if Misleads(u, x) {
      var m: nat, p: nat :| m < |SpansFrom(u, x, 0)| && p < |x| && HasAt(x, p, Key(m)) && SpanNo(u, x, 0, 0, p) < m;
      assert Spells(u, x, 0, 0, m);
    }
  }

  lemma HasAtIsPrefix(x: string, p: nat, literal: string)
    requires p < |x|
    ensures HasAt(x, p, literal) <==> literal <= x[p..]
  {
    if p + |literal| <= |x| {
      assert x[p..][..|literal|] == x[p..p + |literal|];
    }
  }

  /** Putting the spans of a text back gives the text exactly when it spells out no key by mistake. */
  lemma RestoresIff(u: Unicode, x: string)
    requires PlainKeys(u)
    ensures var spans := SpansFrom(u, x, 0);
      RestoreAll(Sheltered(u, x, x, 0, 0), spans, |spans|) == x <==> !Misleads(u, x)
  {
    var spans, mask := SpansFrom(u, x, 0), MaskOf(u, x);
    var v := RestoreAll(Sheltered(u, x, x, 0, 0), spans, |spans|);
    RestoresOrSpoils(u, x, |spans|);
    MisleadsIff(u, x);
    assert x[0..] == x && mask[0..] == mask;
    if Misleads(u, x) {
      WrongIsNot(u, x, 0, 0, |spans|, v);
    } else {
      MixedAll(u, x, x, mask, 0, 0, |spans|);
    }
  }

  // ---------------------------------------------------------------- the function as a whole

  /** The two texts have their spans at the same places. */
  ghost predicate MatchAlike(u: Unicode, s: string, t: string) {
    |s| == |t| && forall i: nat :: i <= |s| ==> Match(u, s, i) == Match(u, t, i)
  }

  lemma ShapesMatchAlike(u: Unicode, s: string, t: string)
    requires u.Valid() && SameShape(s, t)
    ensures MatchAlike(u, s, t)
  {
    forall i: nat | i <= |s| ensures Match(u, s, i) == Match(u, t, i) {
      SameMatch(u, s, t, i);
    }
  }

  lemma {:induction false} SameSheltered(u: Unicode, s: string, t: string, x: string, i: nat, k: nat)
    requires MatchAlike(u, s, t) && i <= |s| == |x|
    ensures Sheltered(u, s, x, i, k) == Sheltered(u, t, x, i, k)
    decreases |s| - i
  {
    var e := Match(u, s, i);
    assert Match(u, t, i) == e;
    if i == |s| {
    } else if e > i {
      SameSheltered(u, s, t, x, e, k + 1);
    } else {
      SameSheltered(u, s, t, x, i + 1, k);
    }
  }

  lemma SameSpan(s: string, t: string, mask: Mask, i: nat, e: nat)
    requires KeepsSpans(mask, s, t) && i <= e <= |s| && forall j :: i <= j < e ==> mask[j]
    ensures s[i..e] == t[i..e]
  {
  }

  lemma {:induction false} SameSpans(u: Unicode, s: string, t: string, mask: Mask, i: nat)
    requires MatchAlike(u, s, t) && i <= |s| && KeepsSpans(mask, s, t) && Boundaries(u, s, mask, i)
    ensures SpansFrom(u, s, i) == SpansFrom(u, t, i)
    decreases |s| - i
  {
    if i == |s| {
    } else {
      NextBoundary(u, s, mask, i);
      if Match(u, s, i) > i {
        SameSpan(s, t, mask, i, Match(u, s, i));
        SameSpans(u, s, t, mask, Match(u, s, i));
      } else {
        SameSpans(u, s, t, mask, i + 1);
      }
    }
  }

  lemma {:induction false} SameSpanNo(u: Unicode, s: string, t: string, i: nat, k: nat, p: nat)
    requires MatchAlike(u, s, t) && i <= p < |s|
    ensures SpanNo(u, s, i, k, p) == SpanNo(u, t, i, k, p)
    decreases |s| - i
  {
    if Match(u, s, i) > i {
      if p >= Match(u, s, i) {
        SameSpanNo(u, s, t, Match(u, s, i), k + 1, p);
      }
    } else if p > i {
      SameSpanNo(u, s, t, i + 1, k, p);
    }
  }

  lemma SameKeys(s: string, t: string, p: nat, m: nat)
    requires SameShape(s, t)
    ensures HasAt(s, p, Key(m)) <==> HasAt(t, p, Key(m))
  {
    DigitsAreDigits(m);
    SameLiteral(s, t, p, Key(m));
  }

  lemma SameMisleads(u: Unicode, s: string, t: string)
    requires MatchAlike(u, s, t) && SameShape(s, t) && SpansFrom(u, s, 0) == SpansFrom(u, t, 0) && Misleads(u, s)
    ensures Misleads(u, t)
  {
    var m: nat, p: nat :| m < |SpansFrom(u, s, 0)| && p < |s| && HasAt(s, p, Key(m)) && SpanNo(u, s, 0, 0, p) < m;
    SameSpanNo(u, s, t, 0, 0, p);
    SameKeys(s, t, p, m);
  }

  lemma NormalizedSpans(u: Unicode, text: string)
    requires u.Valid()
    ensures SameShape(text, Normalized(u, text)) && MatchAlike(u, text, Normalized(u, text))
    ensures SpansFrom(u, text, 0) == SpansFrom(u, Normalized(u, text), 0)
  {
    var mask, y := MaskOf(u, text), Normalized(u, text);
    RewrittenKeepsShape(mask, text);
    ShapesMatchAlike(u, text, y);
    NormalizedKeepsSpans(u, text);
    assert Boundaries(u, text, mask, 0) by {
      assert mask[0..] == mask;
    }
    SameSpans(u, text, y, mask, 0);
  }

  lemma NormalizedMisleads(u: Unicode, text: string)
    requires u.Valid()
    ensures Misleads(u, Normalized(u, text)) <==> Misleads(u, text)
  {
    var y := Normalized(u, text);
    NormalizedSpans(u, text);
    if Misleads(u, text) {
      SameMisleads(u, text, y);
    } else if Misleads(u, y) {
      ShapeIsSymmetric(text, y);
      assert MatchAlike(u, y, text);
      SameMisleads(u, y, text);
    }
  }

  lemma ShapeIsSymmetric(s: string, t: string)
    requires SameShape(s, t)
    ensures SameShape(t, s)
  {
    forall j | 0 < j < |t| && (t[j - 1] == 'p' || t[j - 1] == 's') ensures t[j] == s[j] {
      SameLetter(s, t, j - 1, t[j - 1]);
    }
  }

  /**
   For every text: what the source computes is the one-step rewriting exactly when the text does
   not spell out, outside the spans or in an earlier span, the key of one of its own spans.
   */
  lemma ComputedIff(u: Unicode, text: string)
    requires u.Valid() && PlainKeys(u)
    ensures Computed(u, text) == Normalized(u, text) <==> !Misleads(u, text)
    ensures !Misleads(u, text) ==>
      |Computed(u, text)| == |text|
      && forall i :: 0 <= i < |text| ==> ReadsAs(MaskOf(u, text), text, Computed(u, text), i)
  {
    NormalizedReads(u, text);
    var y := Normalized(u, text);
    NormalizedSpans(u, text);
    NormalizedMisleads(u, text);
    SubstituteAllSheltered(u, text, |RULES|);
    StagesRewrite(MaskOf(u, text), text);
    SameSheltered(u, text, y, y, 0, 0);
    RestoresIff(u, y);
  }

  lemma KeyBegins(text: string, p: nat, m: nat)
    requires HasAt(text, p, Key(m))
    ensures p < |text| && text[p] == KEY_OPEN
  {
    assert text[p..p + |Key(m)|][0] == text[p];
  }

  /** A text without the character that begins a key spells out none. */
  lemma KeyFreeNeverMisleads(u: Unicode, text: string)
    requires KEY_OPEN !in text
    ensures !Misleads(u, text)
  {
    if Misleads(u, text) {
      var m: nat, p: nat :| m < |SpansFrom(u, text, 0)| && p < |text| && HasAt(text, p, Key(m));
      KeyBegins(text, p, m);
    }
  }

  /** Computing again changes nothing, for every text that spells out no key by mistake. */
  lemma ComputedTwice(u: Unicode, text: string)
    requires u.Valid() && PlainKeys(u) && !Misleads(u, text)
    ensures Computed(u, Computed(u, text)) == Computed(u, text)
  {
    ComputedIff(u, text);
    NormalizedMisleads(u, text);
    ComputedIff(u, Normalized(u, text));
    NormalizedIsStable(u, text);
  }

  /** A text without spans may spell out every key. */
  lemma NoSpansNoHarm(u: Unicode, text: string)
    requires u.Valid() && PlainKeys(u) && SpansFrom(u, text, 0) == []
    ensures Computed(u, text) == Normalized(u, text)
  {
    ComputedIff(u, text);
  }
}
