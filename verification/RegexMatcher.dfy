/** The validator and matcher of gtest-port.cc, proved against the language that the
    documentation of the simple regular expressions describes. */
module RegexMatcher {
  import opened Wrappers
  import opened RegexSyntax

  // ----- the language of a pattern -----

  /** The characters an atom stands for, as documented. */
  predicate Denotes(a: Atom, ch: char) {
    if !a.escaped then (if a.c == '.' then ch != '\n' else ch == a.c)
    else if a.c == 'd' then ch in "0123456789"
    else if a.c == 'D' then ch !in "0123456789"
    else if a.c == 's' then ch in " \t\n\r\U{0B}\U{0C}"
    else if a.c == 'S' then ch !in " \t\n\r\U{0B}\U{0C}"
    else if a.c == 'w' then IsLetter(ch) || ch == '_' || ch in "0123456789"
    else if a.c == 'W' then !(IsLetter(ch) || ch == '_' || ch in "0123456789")
    else if a.c == 'f' then ch == '\U{0C}'
    else if a.c == 'n' then ch == '\n'
    else if a.c == 'r' then ch == '\r'
    else if a.c == 't' then ch == '\t'
    else if a.c == 'v' then ch == '\U{0B}'
    else ch == a.c
  }

  predicate IsLetter(ch: char) {
    'a' <= ch <= 'z' || 'A' <= ch <= 'Z'
  }

  predicate CountAllowed(r: Repeat, n: nat) {
    match r
    case Once => n == 1
    case AtMostOnce => n <= 1
    case AnyTimes => true
    case AtLeastOnce => n >= 1
  }

  /** u is a run of characters of the item's atom, of a length its repetition allows. */
  ghost predicate IsRun(item: Item, u: string) {
    CountAllowed(item.repeat, |u|) && forall i | 0 <= i < |u| :: Denotes(item.atom, u[i])
  }

  /** w splits into one run per item. */
  ghost predicate InLanguage(items: seq<Item>, w: string)
    decreases |items|
  {
    if items == [] then w == ""
    else exists n | 0 <= n <= |w| :: IsRun(items[0], w[..n]) && InLanguage(items[1..], w[n..])
  }

  /** An item that is not repeated takes one character. */
  lemma OnceMeaning(a: Atom, rest: seq<Item>, w: string)
    ensures InLanguage([Item(a, Once)] + rest, w) <==> w != "" && Denotes(a, w[0]) && InLanguage(rest, w[1..])
  {
    var item := Item(a, Once);
    assert ([item] + rest)[1..] == rest;
    if w != "" && Denotes(a, w[0]) && InLanguage(rest, w[1..]) {
      assert IsRun(item, w[..1]);
    }
  }

  /** A repetition that also allows no character at all adds just that. */
  lemma OrNothing(a: Atom, most: Repeat, least: Repeat, rest: seq<Item>, w: string)
    requires (most == AtMostOnce && least == Once) || (most == AnyTimes && least == AtLeastOnce)
    ensures InLanguage([Item(a, most)] + rest, w) <==>
            InLanguage(rest, w) || InLanguage([Item(a, least)] + rest, w)
  {
    var items, fewer := [Item(a, most)] + rest, [Item(a, least)] + rest;
    assert items[1..] == rest == fewer[1..] && w[0..] == w;
    if InLanguage(items, w) {
      var n :| 0 <= n <= |w| && IsRun(items[0], w[..n]) && InLanguage(rest, w[n..]);
      if n > 0 {
        assert IsRun(fewer[0], w[..n]);
      }
    }
    if InLanguage(rest, w) {
      assert IsRun(items[0], w[..0]);
    }
    if InLanguage(fewer, w) {
      var n :| 0 <= n <= |w| && IsRun(fewer[0], w[..n]) && InLanguage(rest, w[n..]);
      assert IsRun(items[0], w[..n]);
    }
  }

  /** A run whose first character is right is one character and a run. */
  lemma RunAfterFirst(a: Atom, rest: seq<Item>, w: string)
    requires w != "" && InLanguage([Item(a, AtLeastOnce)] + rest, w)
    ensures InLanguage([Item(a, AnyTimes)] + rest, w[1..])
  {
    var many, some := [Item(a, AnyTimes)] + rest, [Item(a, AtLeastOnce)] + rest;
    assert many[1..] == rest == some[1..];
    var n :| 0 <= n <= |w| && IsRun(some[0], w[..n]) && InLanguage(rest, w[n..]);
    assert w[1..][n - 1..] == w[n..] && w[1..][..n - 1] == w[..n][1..];
    assert IsRun(many[0], w[1..][..n - 1]);
  }

  lemma FirstThenRun(a: Atom, rest: seq<Item>, w: string)
    requires w != "" && Denotes(a, w[0]) && InLanguage([Item(a, AnyTimes)] + rest, w[1..])
    ensures InLanguage([Item(a, AtLeastOnce)] + rest, w)
  {
    var many, some := [Item(a, AnyTimes)] + rest, [Item(a, AtLeastOnce)] + rest;
    assert many[1..] == rest == some[1..];
    var n :| 0 <= n <= |w| - 1 && IsRun(many[0], w[1..][..n]) && InLanguage(rest, w[1..][n..]);
    assert w[1..][n..] == w[n + 1..] && w[..n + 1] == [w[0]] + w[1..][..n];
    assert IsRun(some[0], w[..n + 1]);
  }

  /** x+ is xx*. */
  lemma AtLeastOnceMeaning(a: Atom, rest: seq<Item>, w: string)
    ensures InLanguage([Item(a, AtLeastOnce)] + rest, w) <==>
            InLanguage([Item(a, Once)] + ([Item(a, AnyTimes)] + rest), w)
  {
    OnceMeaning(a, [Item(a, AnyTimes)] + rest, w);
    if InLanguage([Item(a, AtLeastOnce)] + rest, w) {
      FirstIsRight(a, rest, w);
      RunAfterFirst(a, rest, w);
    }
    if w != "" && Denotes(a, w[0]) && InLanguage([Item(a, AnyTimes)] + rest, w[1..]) {
      FirstThenRun(a, rest, w);
    }
  }

  lemma FirstIsRight(a: Atom, rest: seq<Item>, w: string)
    requires InLanguage([Item(a, AtLeastOnce)] + rest, w)
    ensures w != "" && Denotes(a, w[0])
  {
    var item := ([Item(a, AtLeastOnce)] + rest)[0];
    var n :| 0 <= n <= |w| && IsRun(item, w[..n]);
    assert Denotes(a, w[..n][0]);
  }

  /** x? is nothing or x; x* is nothing or xx*. */
  lemma RepeatMeaning(a: Atom, rest: seq<Item>, w: string)
    ensures InLanguage([Item(a, AtMostOnce)] + rest, w) <==>
            InLanguage(rest, w) || InLanguage([Item(a, Once)] + rest, w)
    ensures InLanguage([Item(a, AnyTimes)] + rest, w) <==>
            InLanguage(rest, w) || InLanguage([Item(a, Once)] + ([Item(a, AnyTimes)] + rest), w)
  {
    OrNothing(a, AtMostOnce, Once, rest, w);
    OrNothing(a, AnyTimes, AtLeastOnce, rest, w);
    AtLeastOnceMeaning(a, rest, w);
  }

  /** Some substring of s is in the language, subject to the anchors. */
  ghost predicate Matches(p: Pattern, s: string) {
    exists i, j | 0 <= i <= j <= |s| ::
      (p.fromStart ==> i == 0) && (p.toEnd ==> j == |s|) && InLanguage(p.items, s[i..j])
  }

  /** Some prefix of s is in the language; all of s when tied to the end. */
  ghost predicate MatchesPrefix(t: Tail, s: string) {
    exists j | 0 <= j <= |s| :: (t.toEnd ==> j == |s|) && InLanguage(t.items, s[..j])
  }

  lemma NoItems(t: Tail, s: string)
    requires t.items == []
    ensures MatchesPrefix(t, s) <==> (t.toEnd ==> s == "")
  {
    assert InLanguage(t.items, s[..0]);
  }

  /** The first n characters of s are a run of the item, and the rest starts with t. */
  ghost predicate RunThenTail(item: Item, t: Tail, s: string, n: nat) {
    n <= |s| && IsRun(item, s[..n]) && MatchesPrefix(t, s[n..])
  }

  /** A prefix matches when a run of the first item is followed by a match of the rest. */
  lemma PrefixSplits(t: Tail, s: string)
    requires t.items != []
    ensures MatchesPrefix(t, s) <==>
            exists n :: RunThenTail(t.items[0], Tail(t.items[1..], t.toEnd), s, n)
  {
    var rest := Tail(t.items[1..], t.toEnd);
    if MatchesPrefix(t, s) {
      var j :| 0 <= j <= |s| && (t.toEnd ==> j == |s|) && InLanguage(t.items, s[..j]);
      var n :| 0 <= n <= j && IsRun(t.items[0], s[..j][..n]) && InLanguage(rest.items, s[..j][n..]);
      assert s[..j][..n] == s[..n] && s[..j][n..] == s[n..][..j - n];
      assert RunThenTail(t.items[0], rest, s, n);
    }
    forall n: nat | RunThenTail(t.items[0], rest, s, n)
      ensures MatchesPrefix(t, s)
    {
      var k :| 0 <= k <= |s| - n && (t.toEnd ==> k == |s| - n) && InLanguage(rest.items, s[n..][..k]);
      assert s[..n + k][..n] == s[..n] && s[..n + k][n..] == s[n..][..k];
      assert InLanguage(t.items, s[..n + k]);
    }
  }

  // ----- the code -----

  /** The switch of the source; it agrees with the documentation on valid atoms. */
  predicate AtomMatchesChar(escaped: bool, patternChar: char, ch: char): (r: bool)
    ensures ValidAtom(Atom(escaped, patternChar)) ==> (r <==> Denotes(Atom(escaped, patternChar), ch))
  {
    if escaped then
      match patternChar
      case 'd' => IsAsciiDigit(ch)
      case 'D' => !IsAsciiDigit(ch)
      case 'f' => ch == '\U{0C}'
      case 'n' => ch == '\n'
      case 'r' => ch == '\r'
      case 's' => IsAsciiWhiteSpace(ch)
      case 'S' => !IsAsciiWhiteSpace(ch)
      case 't' => ch == '\t'
      case 'v' => ch == '\U{0B}'
      case 'w' => IsAsciiWordChar(ch)
      case 'W' => !IsAsciiWordChar(ch)
      case _ => IsAsciiPunct(patternChar) && patternChar == ch
    else
      (patternChar == '.' && ch != '\n') || patternChar == ch
  }

  /** What is left to accept of a text whose start is valid, given whether a repetition
      may come next. */
  predicate TailAccepted(rest: Text, prevRepeatable: bool) {
    if prevRepeatable && rest != "" && IsRepeat(rest[0]) then ParseTail(rest[1..]).Some?
    else ParseTail(rest).Some?
  }

  lemma EscapeAccepted(rest: Text, prevRepeatable: bool)
    requires rest != "" && rest[0] == '\\'
    ensures TailAccepted(rest, prevRepeatable) <==>
            |rest| > 1 && IsValidEscape(rest[1]) && TailAccepted(rest[2..], true)
  {
    if |rest| > 1 && IsValidEscape(rest[1]) && rest[2..] != "" {
      assert rest[2..][0] == rest[2];
      assert rest[2..][1..] == rest[3..];
    }
  }

  lemma PlainAccepted(rest: Text, prevRepeatable: bool)
    requires rest != "" && rest[0] != '\\'
    ensures TailAccepted(rest, prevRepeatable) <==>
            && rest[0] != '^'
            && !(rest[0] == '$' && |rest| > 1)
            && !IsInSet(rest[0], "()[]{}|")
            && !(IsRepeat(rest[0]) && !prevRepeatable)
            && TailAccepted(rest[1..], !IsInSet(rest[0], "^$?*+"))
  {
    if rest[1..] != "" {
      assert rest[1..][0] == rest[1];
      assert rest[1..][1..] == rest[2..];
    }
  }

  /** Where the scan stands: what it has accepted and still has to accept. */
  ghost predicate ScanInvariant(re: Text, i: nat, valid: bool, prevRepeatable: bool)
    requires i <= |re|
  {
    if i == 0 then valid && !prevRepeatable
    else valid && TailAccepted(re[i..], prevRepeatable) <==> Parse(re).Some?
  }

  lemma ScanEscape(re: Text, i: nat, valid: bool, prevRepeatable: bool)
    requires i < |re| && re[i] == '\\' && ScanInvariant(re, i, valid, prevRepeatable)
    ensures i + 1 == |re| ==> Parse(re) == None
    ensures i + 1 < |re| ==> ScanInvariant(re, i + 2, valid && IsValidEscape(re[i + 1]), true)
  {
    assert re[0..] == re;
    EscapeAccepted(re[i..], prevRepeatable);
    if i + 1 < |re| {
      assert re[i..][2..] == re[i + 2..];
    }
  }

  /** What the scan asks of a character that is not an escape. */
  predicate PlainAllowed(re: Text, i: nat, prevRepeatable: bool)
    requires i < |re|
  {
    && !(re[i] == '^' && i > 0)
    && !(re[i] == '$' && i + 1 < |re|)
    && !IsInSet(re[i], "()[]{}|")
    && !(IsRepeat(re[i]) && !prevRepeatable)
  }

  lemma ScanPlain(re: Text, i: nat, valid: bool, prevRepeatable: bool)
    requires i < |re| && re[i] != '\\' && ScanInvariant(re, i, valid, prevRepeatable)
    ensures ScanInvariant(re, i + 1, valid && PlainAllowed(re, i, prevRepeatable), !IsInSet(re[i], "^$?*+"))
  {
    assert re[0..] == re;
    assert re[i..][1..] == re[i + 1..];
    PlainAccepted(re[i..], prevRepeatable);
  }

  /** The checks of a character that is not an escape. */
  method CheckPlain(re: Text, i: nat, ok: bool, prevRepeatable: bool) returns (valid: bool)
    requires i < |re|
    ensures valid <==> ok && PlainAllowed(re, i, prevRepeatable)
  {
    valid := ok;
    var ch := re[i];
    if ch == '^' && i > 0 {
      valid := false;
    } else if ch == '$' && At(re, i + 1) != '\0' {
      valid := false;
    } else if IsInSet(ch, "()[]{}|") {
      valid := false;
    } else if IsRepeat(ch) && !prevRepeatable {
      valid := false;
    }
  }

  /** The scan of an escape; it ends where the text does. */
  method ScanEscaped(re: Text, start: nat, ok: bool, ghost prevRepeatable: bool)
      returns (ended: bool, i: nat, valid: bool)
    requires start < |re| && re[start] == '\\' && ScanInvariant(re, start, ok, prevRepeatable)
    ensures ended ==> Parse(re) == None
    ensures !ended ==> i == start + 2 <= |re| && ScanInvariant(re, i, valid, true)
  {
    ScanEscape(re, start, ok, prevRepeatable);
    i, valid := start + 1, ok;
    if At(re, i) == '\0' {
      return true, i, false;
    }
    if !IsValidEscape(re[i]) {
      valid := false;
    }
    return false, i + 1, valid;
  }

  /** The scan of any other character. */
  method ScanOrdinary(re: Text, i: nat, ok: bool, prev: bool) returns (valid: bool, prevRepeatable: bool)
    requires i < |re| && re[i] != '\\' && ScanInvariant(re, i, ok, prev)
    ensures ScanInvariant(re, i + 1, valid, prevRepeatable)
  {
    ScanPlain(re, i, ok, prev);
    valid := CheckPlain(re, i, ok, prev);
    prevRepeatable := !IsInSet(re[i], "^$?*+");
  }

  /** The scan of a text that is not null. */
  method ScanRegex(re: Text) returns (valid: bool)
    ensures valid <==> Parse(re).Some?
  {
    valid := true;
    var prevRepeatable := false;
    var i := 0;
    while i < |re|
      invariant i <= |re| && ScanInvariant(re, i, valid, prevRepeatable)
      decreases |re| - i
    {
      if re[i] == '\\' {
        var ended;
        ended, i, valid := ScanEscaped(re, i, valid, prevRepeatable);
        if ended {
          return false;
        }
        prevRepeatable := true;
      } else {
        valid, prevRepeatable := ScanOrdinary(re, i, valid, prevRepeatable);
        i := i + 1;
      }
    }
    assert re[i..] == "";
  }

  /** Accepts exactly the texts of the grammar, and no null pointer. */
  method ValidateRegex(regex: Option<Text>) returns (valid: bool)
    ensures valid <==> regex.Some? && exists p: Pattern :: ValidItems(p.items) && Show(p) == regex.value
  {
    if regex == None {
      return false;
    }
    valid := ScanRegex(regex.value);
    ParsesIffGrammatical(regex.value);
  }

  /** True exactly when a run of the repeated atom is followed by a match of regex. */
  method MatchRepetitionAndRegexAtHead(escaped: bool, c: char, repeat: char, regex: Text, str: CString)
      returns (matched: bool)
    requires ValidAtom(Atom(escaped, c)) && IsRepeat(repeat) && ParseTail(regex).Some?
    ensures matched <==>
            exists n :: RunThenTail(Item(Atom(escaped, c), RepeatOf(repeat)), ParseTail(regex).value, str, n)
    decreases |regex|, 1
  {
    ghost var item, t := Item(Atom(escaped, c), RepeatOf(repeat)), ParseTail(regex).value;
    var minCount := if repeat == '+' then 1 else 0;
    var maxCount := if repeat == '?' then 1 else SIZE_MAX - 1;
    var i := 0;
    while i <= maxCount
      invariant i <= |str| && i <= maxCount + 1
      invariant forall k | 0 <= k < i :: Denotes(item.atom, str[k])
      invariant forall n | 0 <= n < i :: !RunThenTail(item, t, str, n)
      decreases maxCount + 1 - i
    {
      assert CountAllowed(item.repeat, i) <==> i >= minCount;
      if i >= minCount {
        var rest := MatchRegexAtHead(regex, str[i..]);
        if rest {
          assert RunThenTail(item, t, str, i);
          return true;
        }
      }
      assert !RunThenTail(item, t, str, i);
      if At(str, i) == '\0' || !AtomMatchesChar(escaped, c, str[i]) {
        forall n | n > i
          ensures !RunThenTail(item, t, str, n)
        {
          if i < |str| && n <= |str| {
            assert str[..n][i] == str[i];
          }
        }
        return false;
      }
      i := i + 1;
    }
    return false;
  }

  lemma HeadItem(regex: Text)
    requires ParseTail(regex).Some? && regex != "" && regex[0] != '$'
    ensures FirstItem(regex).Some?
    ensures var (item, n) := FirstItem(regex).value;
            var t := ParseTail(regex).value;
            && t.items != [] && t.items[0] == item
            && ParseTail(regex[n..]) == Some(Tail(t.items[1..], t.toEnd))
  {}

  /** An atom without repetition takes exactly one character. */
  lemma SingleRun(atom: Atom, t: Tail, s: string)
    ensures (exists n :: RunThenTail(Item(atom, Once), t, s, n)) <==>
            s != "" && Denotes(atom, s[0]) && MatchesPrefix(t, s[1..])
  {
    if s != "" && Denotes(atom, s[0]) && MatchesPrefix(t, s[1..]) {
      assert RunThenTail(Item(atom, Once), t, s, 1);
    }
  }

  /** A prefix match in the terms of what the code looks at first. */
  lemma HeadStep(regex: Text, str: CString)
    requires ParseTail(regex).Some? && regex != "" && regex[0] != '$'
    ensures var escaped := regex[0] == '\\';
            var re: Text := if escaped then regex[1..] else regex;
            && re != "" && ValidAtom(Atom(escaped, re[0]))
            && var rest: Text := if IsRepeat(At(re, 1)) then re[2..] else re[1..];
               && ParseTail(rest).Some?
               && var atom, t := Atom(escaped, re[0]), ParseTail(rest).value;
                  MatchesPrefix(ParseTail(regex).value, str) <==>
                  if IsRepeat(At(re, 1)) then exists n :: RunThenTail(Item(atom, RepeatOf(re[1])), t, str, n)
                  else str != "" && Denotes(atom, str[0]) && MatchesPrefix(t, str[1..])
  {
    var t := ParseTail(regex).value;
    PrefixSplits(t, str);
    HeadItem(regex);
    var escaped := regex[0] == '\\';
    var re := if escaped then regex[1..] else regex;
    if !IsRepeat(At(re, 1)) {
      SingleRun(Atom(escaped, re[0]), Tail(t.items[1..], t.toEnd), str);
    }
  }

  /** True exactly when a prefix of str (all of it under `$`) is in the language. */
  method MatchRegexAtHead(regex: Text, str: CString) returns (matched: bool)
    requires ParseTail(regex).Some?
    ensures matched <==> MatchesPrefix(ParseTail(regex).value, str)
    decreases |regex|, 0
  {
    ghost var t := ParseTail(regex).value;
    if At(regex, 0) == '\0' {
      NoItems(t, str);
      return true;
    }
    if regex[0] == '$' {
      NoItems(t, str);
      return At(str, 0) == '\0';
    }
    HeadStep(regex, str);
    var escaped := regex[0] == '\\';
    var re := if escaped then regex[1..] else regex;
    if IsRepeat(At(re, 1)) {
      matched := MatchRepetitionAndRegexAtHead(escaped, re[0], re[1], re[2..], str);
    } else {
      matched := false;
      if At(str, 0) != '\0' && AtomMatchesChar(escaped, re[0], str[0]) {
        matched := MatchRegexAtHead(re[1..], str[1..]);
      }
    }
  }

  /** A substring match that starts at i. */
  lemma MatchesAt(p: Pattern, s: string, i: nat)
    requires i <= |s| && (p.fromStart ==> i == 0)
    ensures MatchesPrefix(Tail(p.items, p.toEnd), s[i..]) <==>
            exists j | i <= j <= |s| :: (p.toEnd ==> j == |s|) && InLanguage(p.items, s[i..j])
  {
    forall j | i <= j <= |s|
      ensures s[i..][..j - i] == s[i..j]
    {}
    if MatchesPrefix(Tail(p.items, p.toEnd), s[i..]) {
      var k :| 0 <= k <= |s[i..]| && (p.toEnd ==> k == |s[i..]|) && InLanguage(p.items, s[i..][..k]);
      assert s[i..][..k] == s[i..i + k];
    }
  }

  /** True exactly when neither pointer is null and some substring, subject to the
      anchors, is in the language. */
  method MatchRegexAnywhere(regex: Option<Text>, str: Option<CString>) returns (matched: bool)
    requires regex.Some? ==> Parse(regex.value).Some?
    ensures matched <==> regex.Some? && str.Some? && Matches(Parse(regex.value).value, str.value)
  {
    if regex == None || str == None {
      return false;
    }
    var re, s := regex.value, str.value;
    ghost var p := Parse(re).value;
    if At(re, 0) == '^' {
      MatchesAt(p, s, 0);
      assert s[0..] == s;
      matched := MatchRegexAtHead(re[1..], s);
      return;
    }
    var i := 0;
    while i <= |s|
      invariant i <= |s| + 1
      invariant forall k, j | 0 <= k < i && k <= j <= |s| ::
                  !((p.toEnd ==> j == |s|) && InLanguage(p.items, s[k..j]))
      decreases |s| + 1 - i
    {
      MatchesAt(p, s, i);
      var found := MatchRegexAtHead(re, s[i..]);
      if found {
        return true;
      }
      i := i + 1;
    }
    return false;
  }

  // ----- RE objects -----

  /** Init's pattern for full matches: `^` and `$` are added unless already there. */
  function FullPattern(regex: Text): Text {
    var front := if At(regex, 0) == '^' then "" else "^";
    var back := if |regex| == 0 || regex[|regex| - 1] != '$' then "$" else "";
    front + regex + back
  }

  class RE {
    var pattern: Option<Text>
    var fullPattern: Option<Text>
    var isValid: bool

    ghost predicate Valid()
      reads this
    {
      && (isValid <==> pattern.Some? && Parse(pattern.value).Some?)
      && (isValid ==> fullPattern == Some(FullPattern(pattern.value)))
    }

    constructor (regex: Option<Text>)
      ensures Valid() && pattern == regex
    {
      pattern := regex;
      fullPattern := None;
      var ok := ValidateRegex(regex);
      isValid := ok;
      if ok {
        ParsesIffGrammatical(regex.value);
        fullPattern := Some(FullPattern(regex.value));
      } else if regex.Some? {
        ParsesIffGrammatical(regex.value);
      }
    }

    /** Matches the whole text, unless the regex ends in an escaped dollar. */
    method FullMatch(str: Option<CString>) returns (matched: bool)
      requires Valid()
      ensures !isValid || str == None ==> !matched
      ensures isValid && str.Some? ==>
                var p := Parse(pattern.value).value;
                (matched <==> if EndsInEscapedDollar(p) then MatchesPrefix(Tail(p.items, false), str.value)
                              else InLanguage(p.items, str.value))
    {
      if !isValid {
        return false;
      }
      FullPatternParses(pattern.value);
      if str.Some? {
        FullPatternMeaning(Parse(pattern.value).value, str.value);
      }
      matched := MatchRegexAnywhere(fullPattern, str);
    }

    method PartialMatch(str: Option<CString>) returns (matched: bool)
      requires Valid()
      ensures matched <==> isValid && str.Some? && Matches(Parse(pattern.value).value, str.value)
    {
      if !isValid {
        return false;
      }
      matched := MatchRegexAnywhere(pattern, str);
    }
  }

  /** The pattern ends in `\$`: a dollar to be matched, which Init takes for the anchor. */
  predicate EndsInEscapedDollar(p: Pattern) {
    !p.toEnd && p.items != [] && p.items[|p.items| - 1] == Item(Atom(true, '$'), Once)
  }

  predicate EndsWithDollarSign(s: string) {
    s != "" && s[|s| - 1] == '$'
  }

  lemma ItemLast(item: Item)
    requires ValidAtom(item.atom)
    ensures var s := ShowItem(item);
            s != "" && (s[|s| - 1] == '$' <==> item == Item(Atom(true, '$'), Once))
  {}

  /** The last character of a printed tail is a dollar for one of two reasons. */
  lemma {:induction false} LastDollar(items: seq<Item>, toEnd: bool)
    requires ValidItems(items)
    ensures var s := ShowTail(items, toEnd);
            EndsWithDollarSign(s) <==>
            toEnd || EndsInEscapedDollar(Pattern(false, items, toEnd))
    decreases |items|
  {
    if items != [] {
      LastDollar(items[1..], toEnd);
      ItemLast(items[0]);
      var first, rest := ShowItem(items[0]), ShowTail(items[1..], toEnd);
      assert rest == "" <==> items[1..] == [] && !toEnd by {
        TailHead(items[1..], toEnd);
        if items[1..] != [] {
          ItemLast(items[1]);
        }
      }
      assert rest != "" ==> (first + rest)[|first + rest| - 1] == rest[|rest| - 1];
    }
  }

  lemma {:induction false} AnchoredTail(items: seq<Item>)
    ensures ShowTail(items, true) == ShowTail(items, false) + "$"
    decreases |items|
  {
    if items != [] {
      AnchoredTail(items[1..]);
    }
  }

  ghost function FullOf(p: Pattern): Pattern {
    Pattern(true, p.items, p.toEnd || !EndsInEscapedDollar(p))
  }

  lemma FullPatternParses(regex: Text)
    requires Parse(regex).Some?
    ensures Parse(FullPattern(regex)) == Some(FullOf(Parse(regex).value))
  {
    var p := Parse(regex).value;
    ParseShows(regex);
    FullPatternShows(p);
    ShowParses(FullOf(p));
  }

  /** A `^` is put in front unless the pattern already starts with one. */
  lemma FrontOfShow(p: Pattern)
    requires ValidItems(p.items) && '\0' !in Show(p)
    ensures (if At(Show(p), 0) == '^' then "" else "^") + Show(p) == "^" + ShowTail(p.items, p.toEnd)
  {
    TailHead(p.items, p.toEnd);
  }

  lemma LastOfShow(p: Pattern)
    ensures EndsWithDollarSign(Show(p)) <==> EndsWithDollarSign(ShowTail(p.items, p.toEnd))
  {
    var body := ShowTail(p.items, p.toEnd);
    assert body != "" ==> Show(p)[|Show(p)| - 1] == body[|body| - 1];
  }

  /** A `$` is put at the back unless the pattern already ends with one. */
  lemma BackOfShow(p: Pattern)
    requires ValidItems(p.items)
    ensures ShowTail(p.items, FullOf(p).toEnd) ==
            ShowTail(p.items, p.toEnd) + (if EndsWithDollarSign(Show(p)) then "" else "$")
  {
    LastOfShow(p);
    LastDollar(p.items, p.toEnd);
    AnchoredTail(p.items);
  }

  lemma Regroup(front: string, s: string, back: string, body: string)
    requires front + s == "^" + body
    ensures front + s + back == "^" + (body + back)
  {}

  lemma FullPatternShows(p: Pattern)
    requires ValidItems(p.items) && '\0' !in Show(p)
    ensures FullPattern(Show(p)) == Show(FullOf(p))
  {
    FrontOfShow(p);
    BackOfShow(p);
    var s := Show(p);
    var front := if At(s, 0) == '^' then "" else "^";
    var back := if EndsWithDollarSign(s) then "" else "$";
    Regroup(front, s, back, ShowTail(p.items, p.toEnd));
  }

  lemma FullPatternMeaning(p: Pattern, s: string)
    ensures Matches(FullOf(p), s) <==>
            if EndsInEscapedDollar(p) then MatchesPrefix(Tail(p.items, false), s)
            else InLanguage(p.items, s)
  {
    MatchesAt(FullOf(p), s, 0);
    assert s[0..] == s && s[..|s|] == s;
  }

  // ----- when a full match means what it says -----

  /** A character that the atom stands for. */
  function Sample(a: Atom): (ch: char)
    requires ValidAtom(a)
    ensures Denotes(a, ch) && ch != '\0'
  {
    if !a.escaped then (if a.c == '.' then 'a' else a.c)
    else match a.c
      case 'd' => '0'
      case 'D' => 'a'
      case 'f' => '\U{0C}'
      case 'n' => '\n'
      case 'r' => '\r'
      case 's' => ' '
      case 'S' => 'a'
      case 't' => '\t'
      case 'v' => '\U{0B}'
      case 'w' => 'a'
      case 'W' => ' '
      case _ => a.c
  }

  function SampleWord(items: seq<Item>): string
    requires ValidItems(items)
  {
    if items == [] then "" else [Sample(items[0].atom)] + SampleWord(items[1..])
  }

  lemma {:induction false} SampleWordInLanguage(items: seq<Item>)
    requires ValidItems(items)
    ensures InLanguage(items, SampleWord(items))
    ensures '\0' !in SampleWord(items) && |SampleWord(items)| == |items|
  {
    if items != [] {
      var w := SampleWord(items);
      SampleWordInLanguage(items[1..]);
      assert w[..1] == [Sample(items[0].atom)] && w[1..] == SampleWord(items[1..]);
      assert IsRun(items[0], w[..1]);
    }
  }

  lemma {:induction false} EndsWithDollar(items: seq<Item>, w: string)
    requires items != [] && items[|items| - 1] == Item(Atom(true, '$'), Once) && InLanguage(items, w)
    ensures w != "" && w[|w| - 1] == '$'
    decreases |items|
  {
    var n :| 0 <= n <= |w| && IsRun(items[0], w[..n]) && InLanguage(items[1..], w[n..]);
    if |items| > 1 {
      EndsWithDollar(items[1..], w[n..]);
    } else {
      assert w == w[..n] && w[..1][0] == w[0];
    }
  }

  lemma {:induction false} ItemsShort(items: seq<Item>, toEnd: bool)
    ensures |ShowTail(items, toEnd)| >= |items|
    ensures items != [] && items[|items| - 1].atom.escaped ==> |ShowTail(items, toEnd)| > |items|
    decreases |items|
  {
    if items != [] {
      ItemsShort(items[1..], toEnd);
    }
  }

  lemma WordIsPrefix(items: seq<Item>, w: string, more: string)
    requires InLanguage(items, w)
    ensures MatchesPrefix(Tail(items, false), w + more)
  {
    assert (w + more)[..|w|] == w;
  }

  /** A word of the language and one character more, where every word ends in a dollar. */
  lemma OverlongWord(items: seq<Item>) returns (s: Text)
    requires ValidItems(items) && items != [] && items[|items| - 1] == Item(Atom(true, '$'), Once)
    ensures |s| == |items| + 1
    ensures MatchesPrefix(Tail(items, false), s) && !InLanguage(items, s)
  {
    SampleWordInLanguage(items);
    WordIsPrefix(items, SampleWord(items), "x");
    s := SampleWord(items) + "x";
    if InLanguage(items, s) {
      EndsWithDollar(items, s);
      assert false;
    }
  }

  lemma PatternShort(p: Pattern)
    ensures EndsInEscapedDollar(p) ==> |Show(p)| > |p.items|
  {
    ItemsShort(p.items, p.toEnd);
  }

  lemma ParsedItemsFit(regex: CString)
    requires Parse(regex).Some?
    ensures var p := Parse(regex).value;
            ValidItems(p.items) && (EndsInEscapedDollar(p) ==> |p.items| + 1 < SIZE_MAX)
  {
    var p := Parse(regex).value;
    ParseShows(regex);
    PatternShort(p);
  }

  /** The text that an escaped dollar lets through. */
  lemma EscapedDollarFails(regex: CString) returns (s: CString)
    requires Parse(regex).Some? && EndsInEscapedDollar(Parse(regex).value)
    ensures var p := Parse(regex).value;
            Matches(FullOf(p), s) && !InLanguage(p.items, s)
  {
    var p := Parse(regex).value;
    ParsedItemsFit(regex);
    s := OverlongWord(p.items);
    FullPatternMeaning(p, s);
  }

  /** FullMatch tests membership of the whole text, for every text, exactly when the
      pattern does not end in an escaped dollar. */
  lemma FullMatchExact(regex: CString)
    requires Parse(regex).Some?
    ensures var p := Parse(regex).value;
            (forall s: CString :: Matches(FullOf(p), s) <==> InLanguage(p.items, s))
            <==> !EndsInEscapedDollar(p)
  {
    var p := Parse(regex).value;
    if EndsInEscapedDollar(p) {
      var s := EscapedDollarFails(regex);
    } else {
      forall s: CString
        ensures Matches(FullOf(p), s) <==> InLanguage(p.items, s)
      {
        FullPatternMeaning(p, s);
      }
    }
  }
}
