/** The simple regular expressions of gtest-port.cc: their grammar, and a parser that
    is proved to be the inverse of printing. */
module RegexSyntax {
  import opened Wrappers

  /** The largest value of size_t, which counts the characters of a string in memory. */
  const SIZE_MAX: nat := 0xFFFF_FFFF_FFFF_FFFF

  /** The characters of a C string up to its terminating NUL. */
  type Text = s: string | '\0' !in s

  /** A text that fits in memory together with its NUL. */
  type CString = s: Text | |s| < SIZE_MAX

  /** Reading a C string at its length yields the NUL. */
  function At(s: Text, i: nat): char
    requires i <= |s|
  {
    if i == |s| then '\0' else s[i]
  }

  // ----- character classes -----

  predicate IsInSet(ch: char, chars: string) {
    ch != '\0' && ch in chars
  }

  predicate IsAsciiDigit(ch: char) {
    '0' <= ch <= '9'
  }

  predicate IsAsciiPunct(ch: char) {
    IsInSet(ch, "^-!\"#$%&'()*+,./:;<=>?@[\\]_`{|}~")
  }

  predicate IsRepeat(ch: char) {
    IsInSet(ch, "?*+")
  }

  predicate IsAsciiWhiteSpace(ch: char) {
    IsInSet(ch, " \U{0C}\n\r\t\U{0B}")
  }

  predicate IsAsciiWordChar(ch: char) {
    'a' <= ch <= 'z' || 'A' <= ch <= 'Z' || '0' <= ch <= '9' || ch == '_'
  }

  predicate IsValidEscape(c: char) {
    IsAsciiPunct(c) || IsInSet(c, "dDfnrsStvwW")
  }

  /** The ASCII characters that are neither letters, digits, spaces nor controls. */
  lemma PunctuationRanges(c: char)
    ensures IsAsciiPunct(c) <==> '!' <= c <= '/' || ':' <= c <= '@' || '[' <= c <= '`' || '{' <= c <= '~'
  {}

  /** The escapes that are documented: those of the classes and control characters, and those
      of punctuation. */
  lemma EscapesDocumented(c: char)
    ensures IsValidEscape(c) <==>
            || c == 'd' || c == 'D' || c == 'f' || c == 'n' || c == 'r' || c == 's' || c == 'S'
            || c == 't' || c == 'v' || c == 'w' || c == 'W'
            || '!' <= c <= '/' || ':' <= c <= '@' || '[' <= c <= '`' || '{' <= c <= '~'
  {
    PunctuationRanges(c);
  }

  // ----- abstract syntax -----

  datatype Atom = Atom(escaped: bool, c: char)

  datatype Repeat = Once | AtMostOnce | AnyTimes | AtLeastOnce

  datatype Item = Item(atom: Atom, repeat: Repeat)

  /** Items in sequence, tied to the start and to the end of the text by `^` and `$`. */
  datatype Pattern = Pattern(fromStart: bool, items: seq<Item>, toEnd: bool)

  /** Characters that stand for themselves, or for any character in the case of `.`. */
  predicate IsOrdinary(c: char) {
    c != '\0' && c !in "\\^$()[]{}|?*+"
  }

  /** The characters that never stand for themselves. */
  lemma OrdinaryDocumented(c: char)
    ensures IsOrdinary(c) <==>
            !(|| c == '\0' || c == '\\' || c == '^' || c == '$' || c == '|' || c == '?' || c == '*' || c == '+'
              || c == '(' || c == ')' || c == '[' || c == ']' || c == '{' || c == '}')
  {}

  predicate ValidAtom(a: Atom) {
    if a.escaped then IsValidEscape(a.c) else IsOrdinary(a.c)
  }

  predicate ValidItems(items: seq<Item>) {
    forall i | 0 <= i < |items| :: ValidAtom(items[i].atom)
  }

  function ShowAtom(a: Atom): string {
    if a.escaped then ['\\', a.c] else [a.c]
  }

  function ShowRepeat(r: Repeat): string {
    match r
    case Once => ""
    case AtMostOnce => "?"
    case AnyTimes => "*"
    case AtLeastOnce => "+"
  }

  function ShowItem(item: Item): string {
    ShowAtom(item.atom) + ShowRepeat(item.repeat)
  }

  function ShowTail(items: seq<Item>, toEnd: bool): string {
    if items == [] then (if toEnd then "$" else "")
    else ShowItem(items[0]) + ShowTail(items[1..], toEnd)
  }

  function Show(p: Pattern): string {
    (if p.fromStart then "^" else "") + ShowTail(p.items, p.toEnd)
  }

  // ----- parsing -----

  datatype Tail = Tail(items: seq<Item>, toEnd: bool)

  function RepeatOf(c: char): Repeat {
    if c == '?' then AtMostOnce else if c == '*' then AnyTimes else if c == '+' then AtLeastOnce else Once
  }

  /** The first atom of s and the number of characters it takes. */
  function FirstAtom(s: Text): Option<(Atom, nat)>
    requires s != ""
  {
    if s[0] == '\\' then
      if |s| > 1 && IsValidEscape(s[1]) then Some((Atom(true, s[1]), 2)) else None
    else if IsOrdinary(s[0]) then Some((Atom(false, s[0]), 1)) else None
  }

  /** The first atom of s with its repetition, and the number of characters they take. */
  function FirstItem(s: Text): (r: Option<(Item, nat)>)
    requires s != ""
    ensures r.Some? ==> 0 < r.value.1 <= |s|
  {
    match FirstAtom(s)
    case None => None
    case Some((atom, n)) =>
      if n < |s| && IsRepeat(s[n]) then Some((Item(atom, RepeatOf(s[n])), n + 1))
      else Some((Item(atom, Once), n))
  }

  /** What follows a `^`, if any. */
  function ParseTail(s: Text): (t: Option<Tail>)
    decreases |s|
  {
    if s == "" then Some(Tail([], false))
    else if s == "$" then Some(Tail([], true))
    else match FirstItem(s)
      case None => None
      case Some((item, n)) =>
        match ParseTail(s[n..])
        case None => None
        case Some(t) => Some(t.(items := [item] + t.items))
  }

  function Parse(s: Text): Option<Pattern> {
    var fromStart := s != "" && s[0] == '^';
    match ParseTail(if fromStart then s[1..] else s)
    case None => None
    case Some(t) => Some(Pattern(fromStart, t.items, t.toEnd))
  }

  lemma FirstItemShows(s: Text)
    requires s != "" && FirstItem(s).Some?
    ensures var (item, n) := FirstItem(s).value;
            ValidAtom(item.atom) && ShowItem(item) == s[..n]
  {}

  lemma {:induction false} ParseTailShows(s: Text)
    requires ParseTail(s).Some?
    ensures var t := ParseTail(s).value;
            ValidItems(t.items) && ShowTail(t.items, t.toEnd) == s
    decreases |s|
  {
    if s != "" && s != "$" {
      var (item, n) := FirstItem(s).value;
      FirstItemShows(s);
      ParseTailShows(s[n..]);
      var t := ParseTail(s).value;
      assert t.items[0] == item && t.items[1..] == ParseTail(s[n..]).value.items;
    }
  }

  /** Nothing printed after an item can be mistaken for its repetition. */
  lemma TailHead(items: seq<Item>, toEnd: bool)
    requires ValidItems(items)
    ensures var s := ShowTail(items, toEnd);
            s != "" ==> !IsRepeat(s[0]) && s[0] != '^' && (s == "$" <==> items == [])
    ensures '\0' !in ShowTail(items, toEnd)
    decreases |items|
  {
    if items != [] {
      TailHead(items[1..], toEnd);
    }
  }

  lemma ShownAtomIsText(atom: Atom)
    requires ValidAtom(atom)
    ensures '\0' !in ShowAtom(atom)
  {}

  /** Printing an atom in front of anything and reading the first atom gives it back. */
  lemma ShowAtomParses(atom: Atom, rest: Text)
    requires ValidAtom(atom)
    ensures '\0' !in ShowAtom(atom) && FirstAtom(ShowAtom(atom) + rest) == Some((atom, |ShowAtom(atom)|))
  {
    ShownAtomIsText(atom);
  }

  /** An atom and what follows it make an item by the first character that follows. */
  lemma ItemOf(s: Text, atom: Atom, n: nat)
    requires s != "" && FirstAtom(s) == Some((atom, n)) && n <= |s|
    ensures FirstItem(s) == if n < |s| && IsRepeat(s[n]) then Some((Item(atom, RepeatOf(s[n])), n + 1))
                            else Some((Item(atom, Once), n))
  {}

  lemma ShowItemParses(item: Item, rest: Text)
    requires ValidAtom(item.atom) && (rest != "" ==> !IsRepeat(rest[0]))
    ensures '\0' !in ShowItem(item)
    ensures FirstItem(ShowItem(item) + rest) == Some((item, |ShowItem(item)|))
  {
    var atom, after := ShowAtom(item.atom), ShowRepeat(item.repeat) + rest;
    ShowAtomParses(item.atom, after);
    assert ShowItem(item) + rest == atom + after;
    assert |after| > 0 ==> (atom + after)[|atom|] == after[0];
    ItemOf(atom + after, item.atom, |atom|);
    RepeatRead(item.repeat, rest);
  }

  /** A printed repetition, or its absence, is told by the first character. */
  lemma RepeatRead(repeat: Repeat, rest: Text)
    requires rest != "" ==> !IsRepeat(rest[0])
    ensures var s := ShowRepeat(repeat) + rest;
            if s != "" && IsRepeat(s[0]) then repeat == RepeatOf(s[0]) && |ShowRepeat(repeat)| == 1
            else repeat == Once && ShowRepeat(repeat) == ""
  {}

  lemma {:induction false} ShowTailParses(items: seq<Item>, toEnd: bool)
    requires ValidItems(items)
    ensures '\0' !in ShowTail(items, toEnd)
    ensures ParseTail(ShowTail(items, toEnd)) == Some(Tail(items, toEnd))
    decreases |items|
  {
    TailHead(items, toEnd);
    if items != [] {
      TailHead(items[1..], toEnd);
      ShowItemParses(items[0], ShowTail(items[1..], toEnd));
      ShowTailParses(items[1..], toEnd);
      assert ShowTail(items, toEnd)[|ShowItem(items[0])|..] == ShowTail(items[1..], toEnd);
      assert [items[0]] + items[1..] == items;
    }
  }

  /** Parsing inverts printing, so a text has at most one reading. */
  lemma ShowParses(p: Pattern)
    requires ValidItems(p.items)
    ensures '\0' !in Show(p) && Parse(Show(p)) == Some(p)
  {
    TailHead(p.items, p.toEnd);
    ShowTailParses(p.items, p.toEnd);
    if p.fromStart {
      assert Show(p)[1..] == ShowTail(p.items, p.toEnd);
    } else {
      assert Show(p) == ShowTail(p.items, p.toEnd);
    }
  }

  lemma ParseShows(s: Text)
    requires Parse(s).Some?
    ensures var p := Parse(s).value;
            ValidItems(p.items) && Show(p) == s
  {
    var fromStart := s != "" && s[0] == '^';
    var tail := if fromStart then s[1..] else s;
    ParseTailShows(tail);
    var t := ParseTail(tail).value;
    assert Parse(s) == Some(Pattern(fromStart, t.items, t.toEnd));
    assert s == (if fromStart then "^" else "") + tail;
  }

  /** The texts that parse are exactly those that some valid pattern prints as. */
  lemma ParsesIffGrammatical(s: Text)
    ensures Parse(s).Some? <==> exists p: Pattern :: ValidItems(p.items) && Show(p) == s
  {
    if Parse(s).Some? {
      ParseShows(s);
    }
    forall p: Pattern | ValidItems(p.items) && Show(p) == s
      ensures Parse(s).Some?
    {
      ShowParses(p);
    }
  }
}
