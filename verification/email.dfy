/** The login form's e-mail check: the regular expression
    `^[a-zA-Z0-9._%+-]+@[a-zA-Z0-9.-]+\.[a-zA-Z]{2,}$`, as a hand-written recogniser. */
module Email {
  import opened Wrappers
  import Text

  /** The three bracketed character classes of the expression. */
  datatype CharClass = LocalPart | DomainPart | Alpha

  predicate IsAsciiLetter(c: char)
  {
    'a' <= c <= 'z' || 'A' <= c <= 'Z'
  }

  /** `[a-zA-Z0-9._%+-]`, `[a-zA-Z0-9.-]` and `[a-zA-Z]`. */
  predicate InClass(c: char, k: CharClass)
  {
    match k
    case LocalPart => IsAsciiLetter(c) || Text.IsDigit(c) || c in "._%+-"
    case DomainPart => IsAsciiLetter(c) || Text.IsDigit(c) || c in ".-"
    case Alpha => IsAsciiLetter(c)
  }

  predicate AllIn(s: string, k: CharClass)
  {
    forall i :: 0 <= i < |s| ==> InClass(s[i], k)
  }

  /** `s` matches the expression with the `@` at `at` and the literal `\.` at `dot`:
      one or more local characters, `@`, one or more domain characters, `.`, then
      two or more letters up to the end. */
  ghost predicate SplitOk(s: string, at: int, dot: int)
  {
    && 0 < at && at + 1 < dot && dot + 2 < |s|
    && s[at] == '@' && s[dot] == '.'
    && AllIn(s[..at], LocalPart)
    && AllIn(s[at + 1..dot], DomainPart)
    && AllIn(s[dot + 1..], Alpha)
  }

  /** The language of the expression: some way of placing `@` and the final `.` fits. */
  ghost predicate MatchesPattern(s: string)
  {
    exists at, dot :: SplitOk(s, at, dot)
  }

  /** Position of the first occurrence of `c`. */
  function IndexOf(s: string, c: char): (r: Option<nat>)
    ensures r.Some? ==> r.value < |s| && s[r.value] == c && c !in s[..r.value]
    ensures r.None? ==> c !in s
    decreases |s|
  {
    if s == [] then None
    else if s[0] == c then Some(0)
    else
      match IndexOf(s[1..], c)
      case None => None
      case Some(i) =>
        assert s[..i + 1] == [s[0]] + s[1..][..i];
        Some(i + 1)
  }

  /** Position of the last occurrence of `c`. */
  function LastIndexOf(s: string, c: char): (r: Option<nat>)
    ensures r.Some? ==> r.value < |s| && s[r.value] == c && c !in s[r.value + 1..]
    ensures r.None? ==> c !in s
    decreases |s|
  {
    if s == [] then None
    else if s[|s| - 1] == c then Some(|s| - 1)
    else
      var r := LastIndexOf(s[..|s| - 1], c);
      assert s == s[..|s| - 1] + [s[|s| - 1]];
      if r.Some? then
        assert s[r.value + 1..] == s[..|s| - 1][r.value + 1..] + [s[|s| - 1]];
        r
      else
        r
  }

  /** The recogniser: split at the first `@` (the local class has no `@`), then split the
      rest at its last `.` (the trailing letters have no `.`), and check each piece. */
  function ValidateEmail(s: string): (b: bool)
    ensures b ==> |s| >= 6 && IsAsciiLetter(s[|s| - 2]) && IsAsciiLetter(s[|s| - 1])
  {
    match IndexOf(s, '@')
    case None => false
    case Some(at) =>
      var rest := s[at + 1..];
      && at > 0
      && AllIn(s[..at], LocalPart)
      && match LastIndexOf(rest, '.')
         case None => false
         case Some(k) => k > 0 && AllIn(rest[..k], DomainPart) && |rest| - k > 2 && AllIn(rest[k + 1..], Alpha)
  }

  /** Everything the recogniser accepts is in the language of the expression. */
  lemma ValidateEmailSound(s: string)
    requires ValidateEmail(s)
    ensures MatchesPattern(s)
  {
    var at := IndexOf(s, '@').value;
    var rest := s[at + 1..];
    var k := LastIndexOf(rest, '.').value;
    assert rest[..k] == s[at + 1..at + 1 + k];
    assert rest[k + 1..] == s[at + 1 + k + 1..];
    assert SplitOk(s, at, at + 1 + k);
  }

  /** Everything in the language of the expression is accepted by the recogniser. */
  lemma ValidateEmailComplete(s: string, at: int, dot: int)
    requires SplitOk(s, at, dot)
    ensures ValidateEmail(s)
  {
    assert '@' !in s[..at] by {
      forall i | 0 <= i < at
        ensures s[..at][i] != '@'
      {
        assert InClass(s[..at][i], LocalPart);
      }
    }
    var first := IndexOf(s, '@');
    assert first == Some(at);
    var rest := s[at + 1..];
    var k0 := dot - at - 1;
    assert rest[k0] == '.';
    assert rest[..k0] == s[at + 1..dot];
    assert rest[k0 + 1..] == s[dot + 1..];
    var last := LastIndexOf(rest, '.');
    assert last == Some(k0);
  }

  /** The recogniser decides exactly the language of the expression. */
  lemma ValidateEmailIsPattern(s: string)
    ensures ValidateEmail(s) <==> MatchesPattern(s)
  {
    if ValidateEmail(s) {
      ValidateEmailSound(s);
    }
    if MatchesPattern(s) {
      var at, dot :| SplitOk(s, at, dot);
      ValidateEmailComplete(s, at, dot);
    }
  }

  /** In a match, the only `@` is the one the split places. */
  lemma SplitOnlyAt(s: string, at: int, dot: int, i: int)
    requires SplitOk(s, at, dot)
    requires 0 <= i < |s| && s[i] == '@'
    ensures i == at
  {
  }

  /** In an accepted address every `@` sits at the same position. */
  lemma AcceptedAtUnique(s: string, i: int, j: int)
    requires ValidateEmail(s)
    requires 0 <= i < |s| && s[i] == '@' && 0 <= j < |s| && s[j] == '@'
    ensures i == j
  {
    ValidateEmailSound(s);
    var at, dot :| SplitOk(s, at, dot);
    SplitOnlyAt(s, at, dot, i);
    SplitOnlyAt(s, at, dot, j);
  }

  /** An accepted address contains exactly one `@`. */
  lemma AcceptedHasOneAt(s: string)
    requires ValidateEmail(s)
    ensures multiset(s)['@'] == 1
  {
    var at := IndexOf(s, '@').value;
    var after := s[at + 1..];
    forall k | 0 <= k < |after|
      ensures after[k] != '@'
    {
      if after[k] == '@' {
        AcceptedAtUnique(s, at + 1 + k, at);
      }
    }
    assert s == s[..at] + [s[at]] + after;
    assert multiset(s) == multiset(s[..at]) + multiset{'@'} + multiset(after);
  }

  /** What an accepted address looks like around its `@` and its last `.`: a non-empty
      local part of local characters; only domain characters after the `@`; at least one
      of them before the last `.`; and at least two letters, and nothing else, after it. */
  lemma AcceptedParts(s: string, at: int, dot: int)
    requires ValidateEmail(s)
    requires 0 <= at < |s| && s[at] == '@'
    requires 0 <= dot < |s| && s[dot] == '.' && '.' !in s[dot + 1..]
    ensures 0 < at && AllIn(s[..at], LocalPart)
    ensures AllIn(s[at + 1..], DomainPart)
    ensures at + 1 < dot && |s| - dot > 2 && AllIn(s[dot + 1..], Alpha)
  {
    ValidateEmailSound(s);
    var a, d :| SplitOk(s, a, d);
    SplitOnlyAt(s, a, d, at);
    assert d == dot;
    forall i | at + 1 <= i < |s|
      ensures InClass(s[i], DomainPart)
    {
      if i < dot {
        assert InClass(s[at + 1..dot][i - at - 1], DomainPart);
      } else if i > dot {
        assert InClass(s[dot + 1..][i - dot - 1], Alpha);
      }
    }
  }

  /** The final `.` needs a domain character before it... */
  lemma NoDomainBeforeDot()
    ensures !ValidateEmail("a@.com")
  {
    assert IndexOf("a@.com", '@') == Some(1);
    assert "a@.com"[2..] == ".com";
    assert LastIndexOf(".com", '.') == Some(0);
  }

  /** ...but that character may itself be a `.`. */
  lemma DotBeforeDot()
    ensures ValidateEmail("a@..com")
  {
    assert SplitOk("a@..com", 1, 3);
    ValidateEmailComplete("a@..com", 1, 3);
  }

  /** The top-level domain is two or more letters: one letter, or a digit in it, is refused. */
  lemma TopLevelDomain()
    ensures ValidateEmail("a@b.co")
    ensures !ValidateEmail("a@b.c")
    ensures !ValidateEmail("a@b.c1")
  {
    assert SplitOk("a@b.co", 1, 3);
    ValidateEmailComplete("a@b.co", 1, 3);
  }

  /** An address needs its `@` and a local part before it. */
  lemma AtSignNeeded()
    ensures !ValidateEmail("")
    ensures !ValidateEmail("ab.com")
    ensures !ValidateEmail("@b.com")
  {
  }

  /** A second `@` is refused. */
  lemma SecondAtSign()
    ensures !ValidateEmail("a@b@c.com")
  {
    var s := "a@b@c.com";
    if ValidateEmail(s) {
      AcceptedAtUnique(s, 1, 3);
    }
  }

  /** Every local-part symbol the expression allows is accepted. */
  lemma LocalSymbols()
    ensures ValidateEmail("a.b_c%d+e-f@x-1.y.org")
  {
    var s := "a.b_c%d+e-f@x-1.y.org";
    assert s[..11] == "a.b_c%d+e-f";
    forall i | 0 <= i < 11
      ensures InClass(s[..11][i], LocalPart)
    {
    }
    assert SplitOk(s, 11, 17);
    ValidateEmailComplete(s, 11, 17);
  }
}
