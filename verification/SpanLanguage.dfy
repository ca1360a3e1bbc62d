/**
 What the pattern of `normalize_chinese_punctuation` says, read as a language: the words of each
 alternative, in plain characters. The matcher is proved to find, at every position, the longest
 word of the first alternative that has one there, and nothing where none has.
 */
module SpanLanguage {
  import opened ProtectedSpans

  /** What is assumed of the Unicode classes: digits are word characters, and a dot is neither. */
  ghost predicate Ordinary(u: Unicode) {
    (forall c :: u.isDigit(c) ==> u.isWord(c)) && !u.isDigit('.')
  }

  predicate IsAscii(c: char) {
    'a' <= c <= 'z' || 'A' <= c <= 'Z' || '0' <= c <= '9'
  }

  /** All characters of s from i to e are of the class. */
  ghost predicate AllIn(s: string, i: nat, e: nat, p: char -> bool) {
    i <= e <= |s| && forall j :: i <= j < e ==> p(s[j])
  }

  /** `(?:https?://|www\.)[^\s<>]+`, with the body from b on. */
  ghost predicate IsUrlFrom(u: Unicode, s: string, i: nat, b: nat, e: nat) {
    && i <= b < e <= |s| && s[i..b] in {"http://", "https://", "www."}
    && forall j :: b <= j < e ==> !u.isSpace(s[j]) && s[j] != '<' && s[j] != '>'
  }

  ghost predicate IsUrl(u: Unicode, s: string, i: nat, e: nat) {
    exists b: nat :: IsUrlFrom(u, s, i, b, e)
  }

  /** `[A-Za-z0-9._%+-]+@[A-Za-z0-9.-]+\.[A-Za-z]{2,}`, with the "@" and the last dot at these places. */
  ghost predicate IsMailWith(s: string, i: nat, at: nat, dot: nat, e: nat) {
    && i < at && at + 1 < dot && dot + 3 <= e <= |s| && s[at] == '@' && s[dot] == '.'
    && (forall j :: i <= j < at ==> IsAscii(s[j]) || s[j] in "._%+-")
    && (forall j :: at < j < dot ==> IsAscii(s[j]) || s[j] in ".-")
    && (forall j :: dot < j < e ==> 'a' <= s[j] <= 'z' || 'A' <= s[j] <= 'Z')
  }

  ghost predicate IsMail(s: string, i: nat, e: nat) {
    exists at: nat, dot: nat :: IsMailWith(s, i, at, dot, e)
  }

  /** One or more digits, and so many more groups of a dot and digits. */
  ghost predicate IsGroups(u: Unicode, s: string, i: nat, e: nat, more: nat)
    decreases more
  {
    if more == 0 then i < e && AllIn(s, i, e, u.isDigit)
    else exists d: nat :: FirstGroup(u, s, i, d, e) && IsGroups(u, s, d + 1, e, more - 1)
  }

  ghost predicate FirstGroup(u: Unicode, s: string, i: nat, d: nat, e: nat) {
    i < d < e <= |s| && AllIn(s, i, d, u.isDigit) && s[d] == '.'
  }

  /** `\b`: a word character on exactly one side. */
  predicate IsBreak(u: Unicode, s: string, i: nat) {
    (1 <= i <= |s| && u.isWord(s[i - 1])) <==> !(i < |s| && u.isWord(s[i]))
  }

  /** `\b\d+(?:\.\d+)+\b`. */
  ghost predicate IsNumber(u: Unicode, s: string, i: nat, e: nat) {
    i <= e <= |s| && IsBreak(u, s, i) && IsBreak(u, s, e) && exists more: nat :: more > 0 && IsGroups(u, s, i, e, more)
  }

  /** `\b[A-Z](?:\.[A-Z])+(?:\.)?`: capitals and dots in turn, with two capitals or more. */
  ghost predicate IsInitials(u: Unicode, s: string, i: nat, e: nat) {
    && i + 3 <= e <= |s| && IsBreak(u, s, i)
    && forall j :: i <= j < e ==> if (j - i) % 2 == 0 then 'A' <= s[j] <= 'Z' else s[j] == '.'
  }

  // ---------------------------------------------------------------- runs

  /** The run from i on is the longest stretch of the class. */
  lemma {:induction false} RunIsLongest(s: string, i: nat, p: char -> bool)
    requires i <= |s|
    ensures AllIn(s, i, RunEnd(s, i, p), p)
    ensures forall e: nat :: AllIn(s, i, e, p) ==> e <= RunEnd(s, i, p)
    ensures RunEnd(s, i, p) < |s| ==> !p(s[RunEnd(s, i, p)])
    decreases |s| - i
  {
    if i < |s| && p(s[i]) {
      RunIsLongest(s, i + 1, p);
      forall e: nat | AllIn(s, i, e, p) ensures e <= RunEnd(s, i, p) {
        assert e > i ==> AllIn(s, i + 1, e, p);
      }
    } else {
      forall e: nat | AllIn(s, i, e, p) ensures e <= i {
      }
    }
  }

  // ---------------------------------------------------------------- addresses

  lemma SchemeParts(s: string, i: nat)
    requires i <= |s|
    ensures HasAt(s, i, "http") && HasAt(s, i + 4, "s://") <==> HasAt(s, i, "https://")
    ensures HasAt(s, i, "http") && HasAt(s, i + 4, "://") <==> HasAt(s, i, "http://")
  {
    if i + 8 <= |s| {
      assert s[i..i + 8] == s[i..i + 4] + s[i + 4..i + 8];
      assert "https://" == "http" + "s://";
      assert s[i..i + 4] == s[i..i + 8][..4] && s[i + 4..i + 8] == s[i..i + 8][4..];
    }
    if i + 7 <= |s| {
      assert s[i..i + 7] == s[i..i + 4] + s[i + 4..i + 7];
      assert "http://" == "http" + "://";
      assert s[i..i + 4] == s[i..i + 7][..4] && s[i + 4..i + 7] == s[i..i + 7][4..];
    }
  }

  /** At most one scheme stands at a position. */
  lemma OneScheme(s: string, i: nat)
    requires i <= |s|
    ensures HasAt(s, i, "http://") ==> !HasAt(s, i, "https://") && !HasAt(s, i, "www.")
    ensures HasAt(s, i, "https://") ==> !HasAt(s, i, "www.")
  {
    if HasAt(s, i, "http://") {
      assert s[i..i + 7][4] == ':' && s[i..i + 7][0] == 'h' && s[i + 4] == ':' && s[i] == 'h';
    }
    if HasAt(s, i, "https://") {
      assert s[i..i + 8][4] == 's' && s[i..i + 8][0] == 'h' && s[i + 4] == 's' && s[i] == 'h';
    }
    if HasAt(s, i, "www.") {
      assert s[i..i + 4][0] == 'w' && s[i] == 'w';
    }
  }

  lemma UrlBodyMeans(s: string, i: nat, b: nat)
    requires i <= |s|
    ensures i < b <= |s| && s[i..b] in {"http://", "https://", "www."} <==> b == UrlBody(s, i) > i
  {
    SchemeParts(s, i);
    OneScheme(s, i);
    if b <= |s| && i < b && s[i..b] in {"http://", "https://", "www."} {
      assert HasAt(s, i, s[i..b]);
    }
    assert HasAt(s, i, "http") ==> s[i..i + 4][0] == 'h';
    assert HasAt(s, i, "www.") ==> s[i..i + 4][0] == 'w';
  }

  lemma UrlIsLongest(u: Unicode, s: string, i: nat)
    requires i <= |s|
    ensures MatchUrl(u, s, i) > i ==> IsUrl(u, s, i, MatchUrl(u, s, i))
    ensures forall e: nat :: IsUrl(u, s, i, e) ==> i < e <= MatchUrl(u, s, i)
  {
    var b := UrlBody(s, i);
    UrlBodyMeans(s, i, b);
    RunIsLongest(s, b, UrlChar(u));
    if MatchUrl(u, s, i) > i {
      assert IsUrlFrom(u, s, i, b, MatchUrl(u, s, i));
    }
    forall e: nat | IsUrl(u, s, i, e) ensures i < e <= MatchUrl(u, s, i) {
      var c: nat :| IsUrlFrom(u, s, i, c, e);
      UrlBodyMeans(s, i, c);
      assert AllIn(s, b, e, UrlChar(u));
    }
  }

  // ---------------------------------------------------------------- mail

  lemma {:induction false} LastLabelIsLast(s: string, from: nat, j: nat)
    requires from <= j <= |s|
    ensures var e := LastLabel(s, from, j);
            e > 0 ==> exists dot: nat :: from < dot < j && IsLabel(s, dot, e)
    ensures forall dot: nat, e: nat :: from < dot < j && IsLabel(s, dot, e) ==> e <= LastLabel(s, from, j)
  {
    if j > from + 1 {
      LastLabelIsLast(s, from, j - 1);
      RunIsLongest(s, j, IsLetter);
      var r := RunEnd(s, j, IsLetter);
      forall dot: nat, e: nat | from < dot < j && IsLabel(s, dot, e) ensures e <= LastLabel(s, from, j) {
        if dot == j - 1 {
          assert AllIn(s, j, e, IsLetter);
        } else if s[j - 1] == '.' && r >= j + 2 {
          assert !IsLetter(s[j - 1]) && e <= j - 1;
        }
      }
      if s[j - 1] == '.' && r >= j + 2 {
        assert IsLabel(s, j - 1, r);
      }
    }
  }

  /** A dot and two letters or more. */
  ghost predicate IsLabel(s: string, dot: nat, e: nat) {
    dot + 3 <= e <= |s| && s[dot] == '.' && AllIn(s, dot + 1, e, IsLetter)
  }

  lemma ClassesOfMail(c: char)
    ensures IsLocal(c) <==> IsAscii(c) || c in "._%+-"
    ensures IsDomain(c) <==> IsAscii(c) || c in ".-"
    ensures IsLetter(c) <==> 'a' <= c <= 'z' || 'A' <= c <= 'Z'
  {
  }

  lemma MailParts(s: string, i: nat, at: nat, dot: nat, e: nat)
    ensures IsMailWith(s, i, at, dot, e)
       <==> (i < at < |s| && s[at] == '@' && AllIn(s, i, at, IsLocal)
             && at + 1 < dot && AllIn(s, at + 1, dot, IsDomain) && IsLabel(s, dot, e))
  {
    forall c: char
      ensures IsLocal(c) <==> IsAscii(c) || c in "._%+-"
      ensures IsDomain(c) <==> IsAscii(c) || c in ".-"
      ensures IsLetter(c) <==> 'a' <= c <= 'z' || 'A' <= c <= 'Z'
    {
      ClassesOfMail(c);
    }
  }

  /** The "@" of an address comes right after the run of local characters. */
  lemma AtEndsLocal(s: string, i: nat, at: nat)
    requires i < at < |s| && s[at] == '@' && AllIn(s, i, at, IsLocal)
    ensures at == RunEnd(s, i, IsLocal)
  {
    RunIsLongest(s, i, IsLocal);
    assert RunEnd(s, i, IsLocal) > at ==> IsLocal(s[at]);
  }

  lemma MailIsWord(s: string, i: nat)
    requires i <= |s| && MatchMail(s, i) > i
    ensures IsMail(s, i, MatchMail(s, i))
  {
    var at, e := RunEnd(s, i, IsLocal), MatchMail(s, i);
    var j := RunEnd(s, at + 1, IsDomain);
    RunIsLongest(s, i, IsLocal);
    RunIsLongest(s, at + 1, IsDomain);
    LastLabelIsLast(s, at + 1, j);
    var dot: nat :| at + 1 < dot < j && IsLabel(s, dot, e);
    MailParts(s, i, at, dot, e);
  }

  lemma MailIsFound(s: string, i: nat, at: nat, dot: nat, e: nat)
    requires i <= |s| && IsMailWith(s, i, at, dot, e)
    ensures i < e <= MatchMail(s, i)
  {
    MailParts(s, i, at, dot, e);
    AtEndsLocal(s, i, at);
    RunIsLongest(s, at + 1, IsDomain);
    assert AllIn(s, at + 1, dot + 1, IsDomain);
    LastLabelIsLast(s, at + 1, RunEnd(s, at + 1, IsDomain));
  }

  lemma MailIsLongest(s: string, i: nat)
    requires i <= |s|
    ensures MatchMail(s, i) > i ==> IsMail(s, i, MatchMail(s, i))
    ensures forall e: nat :: IsMail(s, i, e) ==> i < e <= MatchMail(s, i)
  {
    if MatchMail(s, i) > i {
      MailIsWord(s, i);
    }
    forall e: nat | IsMail(s, i, e) ensures i < e <= MatchMail(s, i) {
      var at: nat, dot: nat :| IsMailWith(s, i, at, dot, e);
      MailIsFound(s, i, at, dot, e);
    }
  }

  // ---------------------------------------------------------------- numbers

  /** From e on, at the end of a group, r is reached over so many groups more. */
  ghost predicate Reaches(u: Unicode, s: string, e: nat, r: nat, more: nat)
    decreases more
  {
    if more == 0 then e == r <= |s|
    else NextGroup(u, s, e) && Reaches(u, s, RunEnd(s, e + 1, u.isDigit), r, more - 1)
  }

  predicate NextGroup(u: Unicode, s: string, e: nat) {
    e < |s| && s[e] == '.' && RunEnd(s, e + 1, u.isDigit) > e + 1
  }

  lemma {:induction false} GroupsReached(u: Unicode, s: string, e: nat, k: nat)
    requires e <= |s|
    ensures var r := NumberGroups(u, s, e, k);
            r > 0 ==> Boundary(u, s, r) && exists more: nat :: k + more > 0 && Reaches(u, s, e, r, more)
    decreases |s| - e
  {
    var next := if e < |s| then RunEnd(s, e + 1, u.isDigit) else e;
    if NextGroup(u, s, e) {
      GroupsReached(u, s, next, k + 1);
      var r := NumberGroups(u, s, next, k + 1);
      if r > 0 {
        var more: nat :| k + 1 + more > 0 && Reaches(u, s, next, r, more);
        assert Reaches(u, s, e, r, more + 1);
      }
    }
    assert Reaches(u, s, e, e, 0);
  }

  lemma {:induction false} ReachedIsFound(u: Unicode, s: string, e: nat, k: nat, r: nat, more: nat)
    requires e <= |s| && 0 < r <= |s| && Reaches(u, s, e, r, more) && k + more > 0 && Boundary(u, s, r)
    ensures r <= NumberGroups(u, s, e, k)
    decreases more
  {
    if more > 0 {
      ReachedIsFound(u, s, RunEnd(s, e + 1, u.isDigit), k + 1, r, more - 1);
    } else if NextGroup(u, s, e) {
      GroupsReached(u, s, RunEnd(s, e + 1, u.isDigit), k + 1);
      ReachedIsLater(u, s, e, k);
    }
  }

  lemma ReachedIsLater(u: Unicode, s: string, e: nat, k: nat)
    requires NextGroup(u, s, e)
    ensures var r := NumberGroups(u, s, RunEnd(s, e + 1, u.isDigit), k + 1); r > 0 ==> r > e
  {
    var next := RunEnd(s, e + 1, u.isDigit);
    GroupsReached(u, s, next, k + 1);
    if NumberGroups(u, s, next, k + 1) > 0 {
      var more: nat :| Reaches(u, s, next, NumberGroups(u, s, next, k + 1), more);
      ReachesForward(u, s, next, NumberGroups(u, s, next, k + 1), more);
    }
  }

  lemma {:induction false} ReachesForward(u: Unicode, s: string, e: nat, r: nat, more: nat)
    requires Reaches(u, s, e, r, more)
    ensures e <= r <= |s|
    decreases more
  {
    if more > 0 {
      ReachesForward(u, s, RunEnd(s, e + 1, u.isDigit), r, more - 1);
    }
  }

  /** A group ends where the run of its digits ends, when a dot or a boundary follows. */
  lemma GroupIsRun(u: Unicode, s: string, i: nat, e: nat)
    requires Ordinary(u) && i < e && AllIn(s, i, e, u.isDigit)
    requires (e < |s| && s[e] == '.') || Boundary(u, s, e)
    ensures RunEnd(s, i, u.isDigit) == e
  {
    RunIsLongest(s, i, u.isDigit);
    assert u.isDigit(s[e - 1]) && u.isWord(s[e - 1]);
  }

  lemma {:induction false} GroupsAreReached(u: Unicode, s: string, i: nat, e: nat, more: nat)
    requires Ordinary(u) && e <= |s| && IsGroups(u, s, i, e, more) && Boundary(u, s, e)
    ensures i < RunEnd(s, i, u.isDigit) && Reaches(u, s, RunEnd(s, i, u.isDigit), e, more)
    decreases more
  {
    if more == 0 {
      GroupIsRun(u, s, i, e);
    } else {
      var d: nat :| FirstGroup(u, s, i, d, e) && IsGroups(u, s, d + 1, e, more - 1);
      GroupIsRun(u, s, i, d);
      GroupsAreReached(u, s, d + 1, e, more - 1);
    }
  }

  lemma {:induction false} ReachedAreGroups(u: Unicode, s: string, i: nat, e: nat, more: nat)
    requires i <= |s| && i < RunEnd(s, i, u.isDigit) && Reaches(u, s, RunEnd(s, i, u.isDigit), e, more)
    ensures IsGroups(u, s, i, e, more)
    decreases more
  {
    var d := RunEnd(s, i, u.isDigit);
    RunIsLongest(s, i, u.isDigit);
    ReachesForward(u, s, d, e, more);
    if more > 0 {
      ReachesForward(u, s, RunEnd(s, d + 1, u.isDigit), e, more - 1);
      ReachedAreGroups(u, s, d + 1, e, more - 1);
      assert FirstGroup(u, s, i, d, e);
    }
  }

  lemma NumberIsWord(u: Unicode, s: string, i: nat)
    requires i <= |s| && MatchNumber(u, s, i) > i
    ensures IsNumber(u, s, i, MatchNumber(u, s, i))
  {
    var d := RunEnd(s, i, u.isDigit);
    GroupsReached(u, s, d, 0);
    var more: nat :| 0 + more > 0 && Reaches(u, s, d, MatchNumber(u, s, i), more);
    ReachedAreGroups(u, s, i, MatchNumber(u, s, i), more);
  }

  lemma NumberIsLongest(u: Unicode, s: string, i: nat)
    requires Ordinary(u) && i <= |s|
    ensures MatchNumber(u, s, i) > i ==> IsNumber(u, s, i, MatchNumber(u, s, i))
    ensures forall e: nat :: IsNumber(u, s, i, e) ==> i < e <= MatchNumber(u, s, i)
  {
    if MatchNumber(u, s, i) > i {
      NumberIsWord(u, s, i);
    }
    forall e: nat | IsNumber(u, s, i, e) ensures i < e <= MatchNumber(u, s, i) {
      var more: nat :| more > 0 && IsGroups(u, s, i, e, more);
      var d := RunEnd(s, i, u.isDigit);
      GroupsAreReached(u, s, i, e, more);
      ReachesForward(u, s, d, e, more);
      ReachedIsFound(u, s, d, 0, e, more);
    }
  }

  // ---------------------------------------------------------------- initials

  /** Dots and capitals in turn, from a dot on. */
  ghost predicate InTurn(s: string, i: nat, e: nat) {
    i <= e <= |s| && forall j :: i <= j < e ==> if (j - i) % 2 == 0 then s[j] == '.' else IsUpper(s[j])
  }

  lemma {:induction false} InitialGroupsAreLongest(s: string, i: nat)
    requires i <= |s|
    ensures var r := InitialGroups(s, i);
            && InTurn(s, i, r) && (r - i) % 2 == 0
            && (forall e: nat :: InTurn(s, i, e) ==> e <= r + 1 && (e == r + 1 ==> s[r] == '.'))
    decreases |s| - i
  {
    if i + 1 < |s| && s[i] == '.' && IsUpper(s[i + 1]) {
      InitialGroupsAreLongest(s, i + 2);
      var r := InitialGroups(s, i + 2);
      forall e: nat | InTurn(s, i, e) ensures e <= r + 1 && (e == r + 1 ==> s[r] == '.') {
        if e >= i + 2 {
          assert InTurn(s, i + 2, e);
        }
      }
    } else {
      forall e: nat | InTurn(s, i, e) ensures e <= i + 1 && (e == i + 1 ==> s[i] == '.') {
      }
    }
  }

  lemma InitialsParts(u: Unicode, s: string, i: nat, e: nat)
    ensures IsInitials(u, s, i, e)
       <==> i + 3 <= e <= |s| && IsBreak(u, s, i) && IsUpper(s[i]) && InTurn(s, i + 1, e)
  {
    if i + 3 <= e <= |s| && IsUpper(s[i]) && InTurn(s, i + 1, e) {
      forall j | i < j < e ensures if (j - i) % 2 == 0 then 'A' <= s[j] <= 'Z' else s[j] == '.' {
        assert (j - i) % 2 == 0 <==> (j - (i + 1)) % 2 == 1;
      }
    }
    if i + 3 <= e <= |s| && IsInitials(u, s, i, e) {
      assert (i - i) % 2 == 0;
      forall j | i + 1 <= j < e ensures if (j - (i + 1)) % 2 == 0 then s[j] == '.' else IsUpper(s[j]) {
        assert (j - i) % 2 == 0 <==> (j - (i + 1)) % 2 == 1;
      }
    }
  }

  lemma InitialsAreLongest(u: Unicode, s: string, i: nat)
    requires i <= |s|
    ensures MatchInitials(u, s, i) > i ==> IsInitials(u, s, i, MatchInitials(u, s, i))
    ensures forall e: nat :: IsInitials(u, s, i, e) ==> i < e <= MatchInitials(u, s, i)
  {
    if i < |s| {
      InitialGroupsAreLongest(s, i + 1);
    }
    InitialsParts(u, s, i, MatchInitials(u, s, i));
    forall e: nat | IsInitials(u, s, i, e) ensures i < e <= MatchInitials(u, s, i) {
      InitialsParts(u, s, i, e);
    }
  }

  // ---------------------------------------------------------------- the pattern

  /** The words of the alternatives, in the order of the pattern. */
  ghost predicate IsWord(u: Unicode, s: string, alternative: nat, i: nat, e: nat) {
    match alternative
    case 0 => IsUrl(u, s, i, e)
    case 1 => IsMail(s, i, e)
    case 2 => IsNumber(u, s, i, e)
    case _ => IsInitials(u, s, i, e)
  }

  ghost predicate HasWord(u: Unicode, s: string, alternative: nat, i: nat) {
    exists e: nat :: IsWord(u, s, alternative, i, e)
  }

  /** The longest word of the alternative at the position, where no earlier alternative has one. */
  ghost predicate IsFirstLongest(u: Unicode, s: string, alternative: nat, i: nat, e: nat) {
    && IsWord(u, s, alternative, i, e) && (forall other: nat :: IsWord(u, s, alternative, i, other) ==> other <= e)
    && (forall earlier: nat :: earlier < alternative ==> !HasWord(u, s, earlier, i))
  }

  lemma WordsAreFound(u: Unicode, s: string, i: nat)
    requires Ordinary(u) && i <= |s|
    ensures HasWord(u, s, 0, i) <==> MatchUrl(u, s, i) > i
    ensures HasWord(u, s, 1, i) <==> MatchMail(s, i) > i
    ensures HasWord(u, s, 2, i) <==> MatchNumber(u, s, i) > i
    ensures HasWord(u, s, 3, i) <==> MatchInitials(u, s, i) > i
  {
    UrlIsLongest(u, s, i);
    MailIsLongest(s, i);
    NumberIsLongest(u, s, i);
    InitialsAreLongest(u, s, i);
    assert MatchUrl(u, s, i) > i ==> IsWord(u, s, 0, i, MatchUrl(u, s, i));
    assert MatchMail(s, i) > i ==> IsWord(u, s, 1, i, MatchMail(s, i));
    assert MatchNumber(u, s, i) > i ==> IsWord(u, s, 2, i, MatchNumber(u, s, i));
    assert MatchInitials(u, s, i) > i ==> IsWord(u, s, 3, i, MatchInitials(u, s, i));
  }

  /**
   At every position of every text: the matcher finds the longest word of the first alternative that
   has one there, and finds nothing exactly when none has.
   */
  lemma MatchIsTheFirstsLongest(u: Unicode, s: string, i: nat)
    requires Ordinary(u) && i <= |s|
    ensures Match(u, s, i) > i <==> exists alternative: nat :: alternative < 4 && HasWord(u, s, alternative, i)
    ensures Match(u, s, i) > i ==>
      exists alternative: nat :: alternative < 4 && IsFirstLongest(u, s, alternative, i, Match(u, s, i))
  {
    WordsAreFound(u, s, i);
    UrlIsLongest(u, s, i);
    MailIsLongest(s, i);
    NumberIsLongest(u, s, i);
    InitialsAreLongest(u, s, i);
    if Match(u, s, i) > i {
      var a := if MatchUrl(u, s, i) > i then 0 else if MatchMail(s, i) > i then 1
               else if MatchNumber(u, s, i) > i then 2 else 3;
      assert IsFirstLongest(u, s, a, i, Match(u, s, i));
    }
  }
}
