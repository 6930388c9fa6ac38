/** The five regular expressions of the rule table as four predicates
    (`firstName` and `lastName` share one), each with the exact semantics
    of an ECMAScript regular expression without flags (`^` and `$` anchor at
    the ends of the whole value, `.` matches anything but a line terminator,
    `\s` is `Text.IsSpace`, `\d` is `[0-9]`), together with an independent
    description of the language each one accepts and a lemma that the two
    agree. */
module Patterns {
  import opened Text

  predicate IsAsciiLetter(c: char) {
    'a' <= c <= 'z' || 'A' <= c <= 'Z'
  }

  /** `[0-9]`, and `\d`, which in ECMAScript is ASCII digits only. */
  predicate IsAsciiDigit(c: char) {
    '0' <= c <= '9'
  }

  // ---------------------------------------------------------------------
  // Names: /^[a-zA-Z\s]+$/

  /** One or more characters, each an ASCII letter or whitespace. */
  predicate NameMatches(s: string) {
    |s| > 0 && forall k :: 0 <= k < |s| ==> IsAsciiLetter(s[k]) || IsSpace(s[k])
  }

  // ---------------------------------------------------------------------
  // E-mail: /^[^\s@]+@[^\s@]+\.[^\s@]+$/

  /** Every character matches `[^\s@]`. */
  predicate NoSpaceNoAt(s: string) {
    forall k :: 0 <= k < |s| ==> !IsSpace(s[k]) && s[k] != '@'
  }

  /** One way the regular expression can match: "@" at `at`, the escaped
      "." at `dot`, and the three runs of `[^\s@]+` around them. */
  predicate EmailSplit(s: string, at: int, dot: int) {
    0 < at && at + 1 < dot < |s| - 1
    && s[at] == '@' && s[dot] == '.'
    && NoSpaceNoAt(s[..at]) && NoSpaceNoAt(s[at + 1..dot]) && NoSpaceNoAt(s[dot + 1..])
  }

  /** The regular expression: the value splits as local "@" host "." tail,
      with each of the three parts non-empty and free of whitespace and "@".
      Backtracking lets the "." be any dot of the domain. */
  predicate EmailMatches(s: string) {
    exists at, dot | 0 < at < |s| && at + 1 < dot < |s| - 1 :: EmailSplit(s, at, dot)
  }

  /** The accepted shape stated directly: no whitespace anywhere, exactly
      one "@", something before it, and a "." after it that is neither the
      first nor the last character of the domain. */
  predicate EmailShape(s: string) {
    (forall k :: 0 <= k < |s| ==> !IsSpace(s[k]))
    && Count(s, '@') == 1
    && var at := IndexOf(s, '@');
       0 < at && exists dot | at + 1 < dot < |s| - 1 :: s[dot] == '.'
  }

  /** A split of the value at its only "@" counts exactly one "@". */
  lemma CountAtSplit(s: string, at: nat)
    requires at < |s| && s[at] == '@'
    requires '@' !in s[..at] && '@' !in s[at + 1..]
    ensures Count(s, '@') == 1 && IndexOf(s, '@') == at
  {
    assert s == s[..at] + [s[at]] + s[at + 1..];
    CountConcat(s[..at] + [s[at]], s[at + 1..], '@');
    CountConcat(s[..at], [s[at]], '@');
    IndexOfIsFirst(s, '@', at);
  }

  lemma EmailSplitShape(s: string, at: int, dot: int)
    requires EmailSplit(s, at, dot)
    ensures EmailShape(s)
  {
    var tail := s[at + 1..];
    assert tail == s[at + 1..dot] + [s[dot]] + s[dot + 1..];
    assert '@' !in tail;
    CountAtSplit(s, at);
    forall k | 0 <= k < |s| ensures !IsSpace(s[k]) {
      if k < at {
        assert s[k] == s[..at][k];
      } else if at < k < dot {
        assert s[k] == s[at + 1..dot][k - at - 1];
      } else if dot < k {
        assert s[k] == s[dot + 1..][k - dot - 1];
      }
    }
  }

  lemma EmailShapeSplit(s: string) returns (at: int, dot: int)
    requires EmailShape(s)
    ensures EmailSplit(s, at, dot)
  {
    at := IndexOf(s, '@');
    dot :| at + 1 < dot < |s| - 1 && s[dot] == '.';
    assert s == s[..at] + [s[at]] + s[at + 1..];
    CountConcat(s[..at] + [s[at]], s[at + 1..], '@');
    CountConcat(s[..at], [s[at]], '@');
    var tail := s[at + 1..];
    assert '@' !in tail;
    forall k | 0 <= k < |s| && k != at ensures s[k] != '@' {
      if k < at { assert s[k] == s[..at][k]; } else { assert s[k] == tail[k - at - 1]; }
    }
    CleanSlice(s, 0, at);
    CleanSlice(s, at + 1, dot);
    CleanSlice(s, dot + 1, |s|);
  }

  /** A stretch of a value with no whitespace and no "@" in it matches `[^\s@]*`. */
  lemma CleanSlice(s: string, i: int, j: int)
    requires 0 <= i <= j <= |s|
    requires forall k :: 0 <= k < |s| ==> !IsSpace(s[k])
    requires forall k :: i <= k < j ==> s[k] != '@'
    ensures NoSpaceNoAt(s[i..j])
  {
  }

  lemma EmailMatchesIff(s: string)
    ensures EmailMatches(s) <==> EmailShape(s)
  {
    if EmailMatches(s) {
      var at, dot :| EmailSplit(s, at, dot);
      EmailSplitShape(s, at, dot);
    }
    if EmailShape(s) {
      var at, dot := EmailShapeSplit(s);
    }
  }

  // ---------------------------------------------------------------------
  // Phone: /^\(?([0-9]{3})\)?[-. ]?([0-9]{3})[-. ]?([0-9]{4})$/

  /** `[-. ]`: hyphen, full stop or the space character U+0020 only. */
  predicate IsPhoneSeparator(c: char) {
    c == '-' || c == '.' || c == ' '
  }

  predicate AllDigits(s: string) {
    forall k :: 0 <= k < |s| ==> IsAsciiDigit(s[k])
  }

  /** An optional literal character: consume it if it is next. */
  function SkipChar(s: string, c: char): (r: string)
    ensures r == s || (s != [] && s[0] == c && r == s[1..])
  {
    if s != [] && s[0] == c then s[1..] else s
  }

  /** An optional `[-. ]`: consume it if it is next. */
  function SkipSeparator(s: string): (r: string)
    ensures r == s || (s != [] && IsPhoneSeparator(s[0]) && r == s[1..])
  {
    if s != [] && IsPhoneSeparator(s[0]) then s[1..] else s
  }

  /** The regular expression, matched left to right. Each optional token is
      taken whenever it is present: no token it could stand for is a digit,
      which is what the next token needs, so backtracking never finds
      another match. */
  predicate PhoneMatches(s: string) {
    var a := SkipChar(s, '(');
    |a| >= 3 && AllDigits(a[..3])
    && var b := SkipSeparator(SkipChar(a[3..], ')'));
       |b| >= 3 && AllDigits(b[..3])
       && var c := SkipSeparator(b[3..]);
          |c| == 4 && AllDigits(c)
  }

  /** One way of writing a phone number: each optional token present or
      absent, and the three digit groups. The two parentheses are chosen
      independently of each other, as in the regular expression. */
  datatype PhoneShape = PhoneShape(
    open: bool, area: string, close: bool, sep1: string,
    exchange: string, sep2: string, line: string)

  predicate OptionalSeparator(t: string) {
    t == [] || (|t| == 1 && IsPhoneSeparator(t[0]))
  }

  predicate WellFormedPhone(p: PhoneShape) {
    |p.area| == 3 && AllDigits(p.area)
    && |p.exchange| == 3 && AllDigits(p.exchange)
    && |p.line| == 4 && AllDigits(p.line)
    && OptionalSeparator(p.sep1) && OptionalSeparator(p.sep2)
  }

  /** `[c]` when present, nothing otherwise. */
  function Optional(present: bool, c: char): (t: string) {
    if present then [c] else []
  }

  function RenderPhone(p: PhoneShape): (s: string) {
    Optional(p.open, '(') + (p.area + (Optional(p.close, ')')
    + (p.sep1 + (p.exchange + (p.sep2 + p.line)))))
  }

  /** The language of the regular expression: every rendering of a well-formed shape. */
  ghost predicate PhoneLanguage(s: string) {
    exists p :: WellFormedPhone(p) && RenderPhone(p) == s
  }

  lemma SkipOptionalChar(present: bool, c: char, rest: string)
    requires rest != [] && rest[0] != c
    ensures SkipChar(Optional(present, c) + rest, c) == rest
  {
    if present { assert ([c] + rest)[1..] == rest; }
  }

  lemma SkipOptionalSeparator(sep: string, rest: string)
    requires OptionalSeparator(sep)
    requires rest != [] && !IsPhoneSeparator(rest[0])
    ensures SkipSeparator(sep + rest) == rest
  {
    if sep != [] { assert (sep + rest)[1..] == rest; }
  }

  /** A digit is none of the optional tokens that may come before it. */
  lemma DigitIsNoToken(s: string)
    requires s != [] && AllDigits(s)
    ensures s[0] != '(' && s[0] != ')' && !IsPhoneSeparator(s[0])
  {
    assert IsAsciiDigit(s[0]);
  }

  /** Every well-formed shape is accepted. */
  lemma PhoneRenderMatches(p: PhoneShape)
    requires WellFormedPhone(p)
    ensures PhoneMatches(RenderPhone(p))
  {
    var tail4 := p.sep2 + p.line;
    var tail3 := p.exchange + tail4;
    var tail2 := p.sep1 + tail3;
    var tail1 := Optional(p.close, ')') + tail2;
    var a := p.area + tail1;
    assert a[0] == p.area[0];
    DigitIsNoToken(p.area);
    SkipOptionalChar(p.open, '(', a);
    assert a[..3] == p.area && a[3..] == tail1;
    assert tail3[0] == p.exchange[0];
    DigitIsNoToken(p.exchange);
    assert tail2 != [] && tail2[0] != ')' by {
      if p.sep1 != [] { assert tail2[0] == p.sep1[0]; }
    }
    SkipOptionalChar(p.close, ')', tail2);
    SkipOptionalSeparator(p.sep1, tail3);
    assert tail3[..3] == p.exchange && tail3[3..] == tail4;
    DigitIsNoToken(p.line);
    SkipOptionalSeparator(p.sep2, p.line);
  }

  /** Reads back the shape of an accepted value. */
  function ParsePhone(s: string): (p: PhoneShape)
    requires PhoneMatches(s)
    ensures WellFormedPhone(p) && RenderPhone(p) == s
  {
    var open := s != [] && s[0] == '(';
    var a := SkipChar(s, '(');
    var close := |a| > 3 && a[3] == ')';
    var a' := SkipChar(a[3..], ')');
    var sep1 := SeparatorTaken(a');
    var b := SkipSeparator(a');
    var sep2 := SeparatorTaken(b[3..]);
    var c := SkipSeparator(b[3..]);
    var p := PhoneShape(open, a[..3], close, sep1, b[..3], sep2, c);
    PhoneParts(s, open, a, close, a', sep1, b, sep2, c);
    p
  }

  /** The pieces `ParsePhone` cuts an accepted value into put it back together. */
  lemma PhoneParts(s: string, open: bool, a: string, close: bool, a': string,
                   sep1: string, b: string, sep2: string, c: string)
    requires |a| >= 3 && |b| >= 3
    requires open == (s != [] && s[0] == '(') && a == SkipChar(s, '(')
    requires close == (a[3..] != [] && a[3..][0] == ')') && a' == SkipChar(a[3..], ')')
    requires sep1 == SeparatorTaken(a') && b == SkipSeparator(a')
    requires sep2 == SeparatorTaken(b[3..]) && c == SkipSeparator(b[3..])
    ensures s == Optional(open, '(') + (a[..3] + (Optional(close, ')')
      + (sep1 + (b[..3] + (sep2 + c)))))
  {
    SkipCharSplit(s, '(');
    PhoneMiddle(a, close, a', sep1, b);
    PhoneTail(b, sep2, c);
  }

  lemma PhoneMiddle(a: string, close: bool, a': string, sep1: string, b: string)
    requires |a| >= 3
    requires close == (a[3..] != [] && a[3..][0] == ')') && a' == SkipChar(a[3..], ')')
    requires sep1 == SeparatorTaken(a') && b == SkipSeparator(a')
    ensures a == a[..3] + (Optional(close, ')') + (sep1 + b))
  {
    SkipCharSplit(a[3..], ')');
    SkipSeparatorSplit(a');
    assert a == a[..3] + a[3..];
  }

  lemma PhoneTail(b: string, sep2: string, c: string)
    requires |b| >= 3
    requires sep2 == SeparatorTaken(b[3..]) && c == SkipSeparator(b[3..])
    ensures b == b[..3] + (sep2 + c)
  {
    SkipSeparatorSplit(b[3..]);
    assert b == b[..3] + b[3..];
  }

  /** The separator `SkipSeparator` consumes, if any. */
  function SeparatorTaken(s: string): (t: string)
    ensures OptionalSeparator(t)
  {
    if s != [] && IsPhoneSeparator(s[0]) then s[..1] else []
  }

  lemma SkipCharSplit(s: string, c: char)
    ensures s == Optional(s != [] && s[0] == c, c) + SkipChar(s, c)
  {
    if s != [] && s[0] == c { assert s == [s[0]] + s[1..]; }
  }

  lemma SkipSeparatorSplit(s: string)
    ensures s == SeparatorTaken(s) + SkipSeparator(s)
  {
    if s != [] && IsPhoneSeparator(s[0]) { assert s == s[..1] + s[1..]; }
  }

  lemma PhoneMatchesIff(s: string)
    ensures PhoneMatches(s) <==> PhoneLanguage(s)
  {
    if PhoneMatches(s) {
      var p := ParsePhone(s);
    }
    if PhoneLanguage(s) {
      var p :| WellFormedPhone(p) && RenderPhone(p) == s;
      PhoneRenderMatches(p);
    }
  }

  /** Number of ASCII digits in `s`. */
  function DigitCount(s: string): (n: nat)
    ensures n <= |s|
    ensures AllDigits(s) ==> n == |s|
  {
    if s == [] then 0 else (if IsAsciiDigit(s[0]) then 1 else 0) + DigitCount(s[1..])
  }

  lemma {:induction false} DigitCountConcat(a: string, b: string)
    ensures DigitCount(a + b) == DigitCount(a) + DigitCount(b)
  {
    if a == [] {
      assert a + b == b;
    } else {
      assert (a + b)[1..] == a[1..] + b;
      DigitCountConcat(a[1..], b);
    }
  }

  /** Every accepted phone value holds exactly ten digits and is ten to
      fourteen characters long. */
  lemma PhoneDigits(s: string)
    requires PhoneMatches(s)
    ensures DigitCount(s) == 10
    ensures 10 <= |s| <= 14
  {
    RenderedDigits(ParsePhone(s));
  }

  lemma RenderedDigits(p: PhoneShape)
    requires WellFormedPhone(p)
    ensures DigitCount(RenderPhone(p)) == 10
    ensures 10 <= |RenderPhone(p)| <= 14
  {
    var tail4 := p.sep2 + p.line;
    var tail3 := p.exchange + tail4;
    var tail2 := p.sep1 + tail3;
    var tail1 := Optional(p.close, ')') + tail2;
    var a := p.area + tail1;
    NoDigitIn(p.sep2);
    NoDigitIn(p.sep1);
    NoDigitIn(Optional(p.close, ')'));
    NoDigitIn(Optional(p.open, '('));
    DigitCountConcat(p.sep2, p.line);
    DigitCountConcat(p.exchange, tail4);
    DigitCountConcat(p.sep1, tail3);
    DigitCountConcat(Optional(p.close, ')'), tail2);
    DigitCountConcat(p.area, tail1);
    DigitCountConcat(Optional(p.open, '('), a);
  }

  /** Optional tokens other than digit groups hold no digit. */
  lemma NoDigitIn(t: string)
    requires |t| <= 1 && forall k :: 0 <= k < |t| ==> !IsAsciiDigit(t[k])
    ensures DigitCount(t) == 0
  {
    if t != [] { assert t[1..] == []; }
  }

  // ---------------------------------------------------------------------
  // Password: /^(?=.*[a-z])(?=.*[A-Z])(?=.*\d)(?=.*[@$!%*?&])[A-Za-z\d@$!%*?&]/

  /** The four character classes the look-aheads ask for. */
  datatype CharClass = Lower | Upper | Digit | Special

  predicate InClass(k: CharClass, c: char) {
    match k
    case Lower => 'a' <= c <= 'z'
    case Upper => 'A' <= c <= 'Z'
    case Digit => IsAsciiDigit(c)
    case Special => c == '@' || c == '$' || c == '!' || c == '%' || c == '*' || c == '?' || c == '&'
  }

  /** `[A-Za-z\d@$!%*?&]`. */
  predicate IsPasswordChar(c: char) {
    IsAsciiLetter(c) || IsAsciiDigit(c) || InClass(Special, c)
  }

  /** `(?=.*[class])` at the start of the value: a character of the class
      follows a run of characters that `.` matches. */
  predicate LookaheadFinds(s: string, k: CharClass) {
    exists i | 0 <= i < |s| ::
      InClass(k, s[i]) && forall j | 0 <= j < i :: !IsLineTerminator(s[j])
  }

  /** The regular expression: the four look-aheads at position 0, then one
      allowed character. Nothing anchors the end, so the rest of the value
      is not looked at. */
  predicate PasswordMatches(s: string) {
    LookaheadFinds(s, Lower) && LookaheadFinds(s, Upper)
    && LookaheadFinds(s, Digit) && LookaheadFinds(s, Special)
    && |s| > 0 && IsPasswordChar(s[0])
  }

  /** The value up to, not including, its first line terminator. */
  function FirstLine(s: string): (r: string)
    ensures |r| <= |s| && r == s[..|r|]
    ensures forall j :: 0 <= j < |r| ==> !IsLineTerminator(r[j])
    ensures |r| < |s| ==> IsLineTerminator(s[|r|])
  {
    if s == [] || IsLineTerminator(s[0]) then [] else [s[0]] + FirstLine(s[1..])
  }

  predicate HasClass(t: string, k: CharClass) {
    exists i | 0 <= i < |t| :: InClass(k, t[i])
  }

  /** The accepted shape stated directly: the first character is allowed,
      and the first line holds a lower-case letter, an upper-case letter, a
      digit and a special character. */
  predicate PasswordShape(s: string) {
    |s| > 0 && IsPasswordChar(s[0])
    && HasClass(FirstLine(s), Lower) && HasClass(FirstLine(s), Upper)
    && HasClass(FirstLine(s), Digit) && HasClass(FirstLine(s), Special)
  }

  lemma LookaheadIff(s: string, k: CharClass)
    ensures LookaheadFinds(s, k) <==> HasClass(FirstLine(s), k)
  {
    var f := FirstLine(s);
    if LookaheadFinds(s, k) {
      var i :| 0 <= i < |s| && InClass(k, s[i]) && forall j | 0 <= j < i :: !IsLineTerminator(s[j]);
      assert f[i] == s[i];
    }
    if HasClass(f, k) {
      var i :| 0 <= i < |f| && InClass(k, f[i]);
      assert s[i] == f[i];
      assert forall j | 0 <= j < i :: s[j] == f[j];
    }
  }

  lemma PasswordMatchesIff(s: string)
    ensures PasswordMatches(s) <==> PasswordShape(s)
  {
    LookaheadIff(s, Lower);
    LookaheadIff(s, Upper);
    LookaheadIff(s, Digit);
    LookaheadIff(s, Special);
  }

  /** Appending anything to an accepted value keeps it accepted: characters
      after the first are never restricted. */
  lemma PasswordSuffixFree(s: string, t: string)
    requires PasswordMatches(s)
    ensures PasswordMatches(s + t)
  {
    forall k: CharClass ensures LookaheadFinds(s + t, k) {
      var i :| 0 <= i < |s| && InClass(k, s[i]) && forall j | 0 <= j < i :: !IsLineTerminator(s[j]);
      assert (s + t)[i] == s[i];
      assert forall j | 0 <= j < i :: (s + t)[j] == s[j];
    }
  }

  // ---------------------------------------------------------------------
  // Accepted and rejected values

  lemma NameExamples()
    ensures NameMatches("Al") && NameMatches("Mary Ann")
    ensures !NameMatches("Al3x") && !NameMatches("")
  {
    assert "Al3x"[2] == '3';
  }

  lemma EmailAccepts()
    ensures EmailMatches("a@b.com") && EmailMatches("a@b.c.d")
  {
    assert EmailSplit("a@b.com", 1, 3);
    assert EmailSplit("a@b.c.d", 1, 3);
  }

  lemma EmailRejects()
    ensures !EmailMatches("a@b") && !EmailMatches("a b@c.d")
  {
    EmailMatchesIff("a b@c.d");
    assert "a b@c.d"[1] == ' ';
  }

  lemma EmailRejectsTwoAts()
    ensures !EmailMatches("a@b@c.d")
  {
    EmailMatchesIff("a@b@c.d");
    assert Count("a@b@c.d", '@') == 2;
  }

  lemma PhoneAcceptsDashes()
    ensures PhoneMatches("123-456-7890")
  {
  }

  /** `(123) 456-7890`, written token by token as the regular expression
      reads it. */
  lemma PhoneAcceptsAreaCode()
    ensures PhoneMatches("(" + ("123" + (")" + (" " + ("456" + ("-" + "7890"))))))
  {
    var p := PhoneShape(true, "123", true, " ", "456", "-", "7890");
    assert WellFormedPhone(p);
    PhoneRenderMatches(p);
  }

  /** The parentheses are independent: an opening one alone is accepted. */
  lemma PhoneAcceptsUnbalanced()
    ensures PhoneMatches("(123456-7890")
  {
  }

  lemma PhoneRejects()
    ensures !PhoneMatches("12345") && !PhoneMatches("123-456-78901")
  {
    if PhoneMatches("12345") { PhoneDigits("12345"); }
  }

  lemma PasswordAccepts()
    ensures PasswordMatches("Abcdef1@")
  {
    var good := "Abcdef1@";
    assert InClass(Lower, good[1]) && InClass(Upper, good[0]) && InClass(Digit, good[6]) && InClass(Special, good[7]);
  }

  /** A space and two characters outside the allowed alphabet, accepted all
      the same because only the first character is checked. */
  lemma PasswordAcceptsForeignTail()
    ensures PasswordMatches("Abcdef1@ <>")
  {
    PasswordAccepts();
    PasswordSuffixFree("Abcdef1@", " <>");
    assert "Abcdef1@" + " <>" == "Abcdef1@ <>";
  }

  lemma PasswordRejects()
    ensures !PasswordMatches("abcdefg1@") && !PasswordMatches("~Abcdef1@")
  {
    var s := "abcdefg1@";
    forall i | 0 <= i < |s| ensures !InClass(Upper, s[i]) {}
  }
}
