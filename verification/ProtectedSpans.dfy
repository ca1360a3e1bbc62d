/**
 The spans that `normalize_chinese_punctuation` shelters: URLs, mail addresses, dotted
 numbers and dotted abbreviations. `Match` is the leftmost-first, greedy matcher of the
 source's pattern, one function for each alternative.
 */
module ProtectedSpans {

  /** The three Unicode classes the pattern uses. */
  datatype Unicode = Unicode(isSpace: char -> bool, isDigit: char -> bool, isWord: char -> bool) {
    /** What is assumed of them: the punctuation at stake is in none of the three. */
    ghost predicate Valid() {
      forall c :: Punctuation(c) ==> !isSpace(c) && !isDigit(c) && !isWord(c)
    }
  }

  /** The marks that are rewritten, and what they are rewritten to. */
  predicate Punctuation(c: char) {
    || c == ',' || c == ':' || c == ';' || c == '?' || c == '!' || c == '(' || c == ')' || c == '"'
    || c == '，' || c == '：' || c == '；' || c == '？' || c == '！' || c == '（' || c == '）' || c == '“' || c == '”'
  }

  /** The narrow mark a wide one stands for. */
  function Narrow(c: char): char {
    if c == '，' then ',' else if c == '：' then ':' else if c == '；' then ';'
    else if c == '？' then '?' else if c == '！' then '!'
    else if c == '（' then '(' else if c == '）' then ')'
    else if c == '“' || c == '”' then '"' else c
  }

  predicate IsLetter(c: char) { 'A' <= c <= 'Z' || 'a' <= c <= 'z' }
  predicate IsUpper(c: char) { 'A' <= c <= 'Z' }
  predicate IsAlnum(c: char) { IsLetter(c) || '0' <= c <= '9' }
  predicate IsLocal(c: char) { IsAlnum(c) || c == '.' || c == '_' || c == '%' || c == '+' || c == '-' }
  predicate IsDomain(c: char) { IsAlnum(c) || c == '.' || c == '-' }

  function UrlChar(u: Unicode): char -> bool {
    (c: char) => !u.isSpace(c) && c != '<' && c != '>'
  }

  /** Where the run of characters of class p from i ends. */
  function RunEnd(s: string, i: nat, p: char -> bool): (e: nat)
    requires i <= |s|
    ensures i <= e <= |s|
    decreases |s| - i
  {
    if i < |s| && p(s[i]) then RunEnd(s, i + 1, p) else i
  }

  predicate HasAt(s: string, i: nat, literal: string) {
    i + |literal| <= |s| && s[i..i + |literal|] == literal
  }

  /** `\b`. */
  predicate Boundary(u: Unicode, s: string, i: nat)
    requires i <= |s|
  {
    (i > 0 && u.isWord(s[i - 1])) != (i < |s| && u.isWord(s[i]))
  }

  // Each alternative gives the end of its match at i, or i itself when it does not match.

  /** Where the body of a URL starts: after `http://`, `https://` or `www.`. */
  function UrlBody(s: string, i: nat): (b: nat)
    requires i <= |s|
    ensures i <= b <= |s|
  {
    if HasAt(s, i, "http") then
      (if HasAt(s, i + 4, "s://") then i + 8 else if HasAt(s, i + 4, "://") then i + 7 else i)
    else if HasAt(s, i, "www.") then i + 4
    else i
  }

  function MatchUrl(u: Unicode, s: string, i: nat): (e: nat)
    requires i <= |s|
    ensures i <= e <= |s|
  {
    var body := UrlBody(s, i);
    if body > i && RunEnd(s, body, UrlChar(u)) > body then RunEnd(s, body, UrlChar(u)) else i
  }

  /** The last dot in (from, j) that two or more letters follow; the end of those letters. */
  function LastLabel(s: string, from: nat, j: nat): (e: nat)
    requires from <= j <= |s|
    ensures e <= |s|
  {
    if j <= from + 1 then 0
    else if s[j - 1] == '.' && RunEnd(s, j, IsLetter) >= j + 2 then RunEnd(s, j, IsLetter)
    else LastLabel(s, from, j - 1)
  }

  /** The end of the address whose local part is [i, at). */
  function MailFrom(s: string, i: nat, at: nat): (e: nat)
    requires i <= at <= |s|
    ensures i <= e <= |s|
  {
    if at > i && at < |s| && s[at] == '@' then
      var e := LastLabel(s, at + 1, RunEnd(s, at + 1, IsDomain));
      if e > i then e else i
    else i
  }

  function MatchMail(s: string, i: nat): (e: nat)
    requires i <= |s|
    ensures i <= e <= |s|
  {
    MailFrom(s, i, RunEnd(s, i, IsLocal))
  }

  /** After k dotted groups ending at e: take another if that leads to a match, else stop at a boundary. */
  function NumberGroups(u: Unicode, s: string, e: nat, k: nat): (r: nat)
    requires e <= |s|
    ensures r <= |s|
    decreases |s| - e
  {
    var more :=
      if e < |s| && s[e] == '.' && RunEnd(s, e + 1, u.isDigit) > e + 1
      then NumberGroups(u, s, RunEnd(s, e + 1, u.isDigit), k + 1) else 0;
    if more > 0 then more else if k > 0 && Boundary(u, s, e) then e else 0
  }

  function MatchNumber(u: Unicode, s: string, i: nat): (e: nat)
    requires i <= |s|
    ensures i <= e <= |s|
  {
    var digits := RunEnd(s, i, u.isDigit);
    if Boundary(u, s, i) && digits > i && NumberGroups(u, s, digits, 0) > i
    then NumberGroups(u, s, digits, 0) else i
  }

  function InitialGroups(s: string, e: nat): (r: nat)
    requires e <= |s|
    ensures e <= r <= |s|
    decreases |s| - e
  {
    if e + 1 < |s| && s[e] == '.' && IsUpper(s[e + 1]) then InitialGroups(s, e + 2) else e
  }

  function MatchInitials(u: Unicode, s: string, i: nat): (e: nat)
    requires i <= |s|
    ensures i <= e <= |s|
  {
    if i < |s| && Boundary(u, s, i) && IsUpper(s[i]) && InitialGroups(s, i + 1) > i + 1 then
      var e := InitialGroups(s, i + 1);
      if e < |s| && s[e] == '.' then e + 1 else e
    else i
  }

  /** The end of the protected span that starts at i, or i when none does. */
  function Match(u: Unicode, s: string, i: nat): (e: nat)
    requires i <= |s|
    ensures i <= e <= |s|
  {
    if MatchUrl(u, s, i) > i then MatchUrl(u, s, i)
    else if MatchMail(s, i) > i then MatchMail(s, i)
    else if MatchNumber(u, s, i) > i then MatchNumber(u, s, i)
    else MatchInitials(u, s, i)
  }

  // ---------------------------------------------------------------- rewriting keeps the spans

  /**
   Two texts that differ only in the width of punctuation, and not in a colon after "p" or "s",
   the only mark the pattern spells out.
   */
  ghost predicate SameShape(s: string, t: string) {
    && |s| == |t|
    && (forall j :: 0 <= j < |s| ==> Narrow(s[j]) == Narrow(t[j]))
    && (forall j :: 0 < j < |s| && (s[j - 1] == 'p' || s[j - 1] == 's') ==> s[j] == t[j])
  }

  /** A class that does not look at the width of punctuation. */
  ghost predicate Blind(p: char -> bool) {
    forall c {:trigger Narrow(c)} :: p(c) == p(Narrow(c))
  }

  /** A character that is no punctuation is the same in both texts. */
  lemma SameLetter(s: string, t: string, j: nat, c: char)
    requires SameShape(s, t) && j < |s| && !Punctuation(c)
    ensures s[j] == c <==> t[j] == c
  {
  }

  lemma {:induction false} SameRun(s: string, t: string, i: nat, p: char -> bool)
    requires SameShape(s, t) && i <= |s| && Blind(p)
    ensures RunEnd(s, i, p) == RunEnd(t, i, p)
    decreases |s| - i
  {
    if i == |s| {
    } else {
      assert p(s[i]) == p(Narrow(s[i])) && p(t[i]) == p(Narrow(t[i]));
      if p(s[i]) {
        SameRun(s, t, i + 1, p);
      }
    }
  }

  lemma SameLiteral(s: string, t: string, i: nat, literal: string)
    requires SameShape(s, t) && forall c :: c in literal ==> !Punctuation(c)
    ensures HasAt(s, i, literal) <==> HasAt(t, i, literal)
  {
    if i + |literal| <= |s| {
      forall j | 0 <= j < |literal| ensures s[i + j] == literal[j] <==> t[i + j] == literal[j] {
        assert literal[j] in literal;
        SameLetter(s, t, i + j, literal[j]);
      }
      assert s[i..i + |literal|] == literal <==> forall j :: 0 <= j < |literal| ==> s[i + j] == literal[j];
      assert t[i..i + |literal|] == literal <==> forall j :: 0 <= j < |literal| ==> t[i + j] == literal[j];
    }
  }

  /** `://` after a "p" or an "s". */
  lemma SameScheme(s: string, t: string, i: nat)
    requires SameShape(s, t) && 0 < i && i <= |s| && (s[i - 1] == 'p' || s[i - 1] == 's')
    ensures HasAt(s, i, "://") <==> HasAt(t, i, "://")
  {
    SameLiteral(s, t, i + 1, "//");
  }

  lemma SplitSecureScheme(s: string, i: nat)
    ensures HasAt(s, i, "s://") <==> i < |s| && s[i] == 's' && HasAt(s, i + 1, "://")
  {
    if i + 4 <= |s| {
      assert s[i..i + 4] == [s[i]] + s[i + 1..i + 4];
    }
  }

  lemma SameUrlBody(s: string, t: string, i: nat)
    requires SameShape(s, t) && i <= |s|
    ensures UrlBody(s, i) == UrlBody(t, i)
  {
    SameLiteral(s, t, i, "http");
    SameLiteral(s, t, i, "www.");
    if HasAt(s, i, "http") {
      assert s[i + 3] == s[i..i + 4][3] == 'p';
      SameScheme(s, t, i + 4);
      SplitSecureScheme(s, i + 4);
      SplitSecureScheme(t, i + 4);
      if i + 4 < |s| {
        SameLetter(s, t, i + 4, 's');
        if s[i + 4] == 's' {
          SameScheme(s, t, i + 5);
        }
      }
    }
  }

  lemma SameUrl(u: Unicode, s: string, t: string, i: nat)
    requires u.Valid() && SameShape(s, t) && i <= |s|
    ensures MatchUrl(u, s, i) == MatchUrl(u, t, i)
  {
    SameUrlBody(s, t, i);
    SameRun(s, t, UrlBody(s, i), UrlChar(u));
  }

  lemma {:induction false} SameLabel(u: Unicode, s: string, t: string, from: nat, j: nat)
    requires u.Valid() && SameShape(s, t) && from <= j <= |s|
    ensures LastLabel(s, from, j) == LastLabel(t, from, j)
  {
    if j > from + 1 {
      SameLetter(s, t, j - 1, '.');
      SameRun(s, t, j, IsLetter);
      SameLabel(u, s, t, from, j - 1);
    }
  }

  lemma SameDomain(u: Unicode, s: string, t: string, d: nat)
    requires u.Valid() && SameShape(s, t) && d <= |s|
    ensures LastLabel(s, d, RunEnd(s, d, IsDomain)) == LastLabel(t, d, RunEnd(t, d, IsDomain))
  {
    SameRun(s, t, d, IsDomain);
    SameLabel(u, s, t, d, RunEnd(s, d, IsDomain));
  }

  lemma SameMailFrom(u: Unicode, s: string, t: string, i: nat, at: nat)
    requires u.Valid() && SameShape(s, t) && i <= at <= |s|
    ensures MailFrom(s, i, at) == MailFrom(t, i, at)
  {
    if at < |s| {
      SameLetter(s, t, at, '@');
      SameDomain(u, s, t, at + 1);
    }
  }

  lemma SameMail(u: Unicode, s: string, t: string, i: nat)
    requires u.Valid() && SameShape(s, t) && i <= |s|
    ensures MatchMail(s, i) == MatchMail(t, i)
  {
    SameRun(s, t, i, IsLocal);
    SameMailFrom(u, s, t, i, RunEnd(s, i, IsLocal));
  }

  lemma {:induction false} SameGroups(u: Unicode, s: string, t: string, e: nat, k: nat)
    requires u.Valid() && SameShape(s, t) && e <= |s|
    ensures NumberGroups(u, s, e, k) == NumberGroups(u, t, e, k)
    decreases |s| - e
  {
    if e < |s| {
      SameLetter(s, t, e, '.');
      SameRun(s, t, e + 1, u.isDigit);
      if s[e] == '.' && RunEnd(s, e + 1, u.isDigit) > e + 1 {
        SameGroups(u, s, t, RunEnd(s, e + 1, u.isDigit), k + 1);
      }
    }
  }

  lemma SameNumber(u: Unicode, s: string, t: string, i: nat)
    requires u.Valid() && SameShape(s, t) && i <= |s|
    ensures MatchNumber(u, s, i) == MatchNumber(u, t, i)
  {
    SameRun(s, t, i, u.isDigit);
    SameGroups(u, s, t, RunEnd(s, i, u.isDigit), 0);
  }

  lemma {:induction false} SameInitialGroups(s: string, t: string, e: nat)
    requires SameShape(s, t) && e <= |s|
    ensures InitialGroups(s, e) == InitialGroups(t, e)
    decreases |s| - e
  {
    if e + 1 < |s| {
      SameLetter(s, t, e, '.');
      if s[e] == '.' && IsUpper(s[e + 1]) {
        SameInitialGroups(s, t, e + 2);
      }
    }
  }

  lemma SameInitials(u: Unicode, s: string, t: string, i: nat)
    requires u.Valid() && SameShape(s, t) && i <= |s|
    ensures MatchInitials(u, s, i) == MatchInitials(u, t, i)
  {
    if i < |s| {
      SameInitialGroups(s, t, i + 1);
      var e := InitialGroups(s, i + 1);
      if e < |s| {
        SameLetter(s, t, e, '.');
      }
    }
  }

  /** Texts of one shape have the same protected spans. */
  lemma SameMatch(u: Unicode, s: string, t: string, i: nat)
    requires u.Valid() && SameShape(s, t) && i <= |s|
    ensures Match(u, s, i) == Match(u, t, i)
  {
    SameUrl(u, s, t, i);
    SameMail(u, s, t, i);
    SameNumber(u, s, t, i);
    SameInitials(u, s, t, i);
  }
}
