/** Topic patterns of the MQTT router: their translation to a regular expression, and what that matches. */
module MqttPatterns {
  import opened Wrappers
  import opened Splitting

  // ---- patterns ----

  datatype Level = Literal(text: string) | Name(name: string) | Plus | Hash

  predicate IsWord(c: char) {
    'a' <= c <= 'z' || 'A' <= c <= 'Z' || '0' <= c <= '9' || c == '_'
  }

  /** A character that stands for itself in a regular expression. */
  predicate IsPlain(c: char) {
    c !in "\\.^$*+?{}[]|()#/\n"
  }

  /** Literal text, written into the expression as it is: a dot in it is not escaped. */
  predicate IsLiteralText(s: string) {
    forall i :: 0 <= i < |s| ==> IsPlain(s[i]) || s[i] == '.'
  }

  predicate IsIdentifier(s: string) {
    s != "" && !('0' <= s[0] <= '9') && forall i :: 0 <= i < |s| ==> IsWord(s[i])
  }

  predicate IsLevel(l: Level) {
    match l
    case Literal(t) => IsLiteralText(t)
    case Name(n) => IsIdentifier(n)
    case _ => true
  }

  function NamesOf(levels: seq<Level>): seq<string> {
    if levels == [] then []
    else (if levels[0].Name? then [levels[0].name] else []) + NamesOf(levels[1..])
  }

  /** Literal levels, `{name}`, `+`, and `#` in the last place only. */
  predicate WellFormed(levels: seq<Level>) {
    && levels != []
    && (forall i :: 0 <= i < |levels| ==> IsLevel(levels[i]))
    && (forall i :: 0 <= i < |levels| - 1 ==> levels[i] != Hash)
  }

  function LevelText(l: Level): string {
    match l
    case Literal(t) => t
    case Name(n) => "{" + n + "}"
    case Plus => "+"
    case Hash => "#"
  }

  /** The pattern as the caller of `route` writes it. */
  function PatternText(levels: seq<Level>): string
    requires levels != []
  {
    if |levels| == 1 then LevelText(levels[0]) else LevelText(levels[0]) + "/" + PatternText(levels[1..])
  }

  // ---- the translation, on the text of the pattern ----

  /** The group `+` becomes. */
  function SegmentGroup(): (g: string)
    ensures |g| == 7 && '{' !in g && '#' !in g
  {
    "([^/]+)"
  }

  /** The group `#` becomes. */
  function RemainderGroup(): (g: string)
    ensures |g| == 4 && '{' !in g
  {
    "(.+)"
  }

  /** The text around a capture name. */
  function NamedOpen(): (g: string)
    ensures |g| == 4
  {
    "(?P<"
  }

  function NamedClose(): (g: string)
    ensures |g| == 7 && !IsWord(g[0])
  {
    ">[^/]+)"
  }

  function NamedGroup(name: string): string {
    NamedOpen() + name + NamedClose()
  }

  /** `text.replace(c, with)` for a one-character needle. */
  function Replace(text: string, c: char, with: string): string {
    if text == "" then "" else (if text[0] == c then with else [text[0]]) + Replace(text[1..], c, with)
  }

  function WordRun(s: string): (n: nat)
    ensures n <= |s|
  {
    if s == "" || !IsWord(s[0]) then 0 else 1 + WordRun(s[1..])
  }

  /** `re.sub(r"\{(\w+)\}", r"(?P<\1>[^/]+)", text)`. */
  function SubNames(text: string): string
    decreases |text|
  {
    if text == "" then ""
    else if text[0] != '{' then [text[0]] + SubNames(text[1..])
    else
      var n := WordRun(text[1..]);
      if n > 0 && n + 1 < |text| && text[n + 1] == '}' then
        NamedGroup(text[1..n + 1]) + SubNames(text[n + 2..])
      else "{" + SubNames(text[1..])
  }

  /** The expression `route` hands to `re.compile`. */
  function RegexText(pattern: string): string {
    "^" + SubNames(Replace(Replace(pattern, '+', SegmentGroup()), '#', RemainderGroup())) + "$"
  }

  // ---- the regular expressions the translation produces ----

  /**
   * One character, any character but a newline, or a capturing group: a run of at least `least`
   * characters other than `except`.
   */
  datatype Atom = Chr(c: char) | AnyChar | Group(name: Option<string>, except: char, least: nat)

  /** `re.compile` on that sublanguage: anchors, plain characters and groups; it refuses a name used twice. */
  function Compile(text: string): Option<seq<Atom>> {
    if |text| < 2 || text[0] != '^' || text[|text| - 1] != '$' then None
    else
      var atoms := Parse(text[1..|text| - 1]);
      if atoms.Some? && Distinct(GroupNames(atoms.value)) then atoms else None
  }

  function NameOf(a: Atom): seq<string> {
    if a.Group? && a.name.Some? then [a.name.value] else []
  }

  function GroupNames(atoms: seq<Atom>): seq<string> {
    if atoms == [] then [] else NameOf(atoms[0]) + GroupNames(atoms[1..])
  }

  function Prepend(a: Atom, rest: Option<seq<Atom>>): Option<seq<Atom>> {
    if rest.None? then None else Some([a] + rest.value)
  }

  /** A group that was read, and the text after it. */
  datatype GroupRead = GroupRead(group: Atom, rest: string)

  /** Reads the quantifier and the closing parenthesis of a group. */
  function ReadCount(s: string, name: Option<string>, except: char): (g: Option<GroupRead>)
    ensures g.Some? ==> g.value.group.Group? && |g.value.rest| < |s|
  {
    if |s| < 2 || s[1] != ')' then None
    else if s[0] == '+' then Some(GroupRead(Group(name, except, 1), s[2..]))
    else if s[0] == '*' then Some(GroupRead(Group(name, except, 0), s[2..]))
    else None
  }

  /** Reads a group from its character class on: a dot, or all characters but one. */
  function ReadClass(s: string, name: Option<string>): (g: Option<GroupRead>)
    ensures g.Some? ==> g.value.group.Group? && |g.value.rest| < |s|
  {
    if s != "" && s[0] == '.' then ReadCount(s[1..], name, '\n')
    else if |s| >= 4 && s[0] == '[' && s[1] == '^' && (IsPlain(s[2]) || s[2] == '/') && s[3] == ']' then
      ReadCount(s[4..], name, s[2])
    else None
  }

  /** Reads a group after its opening parenthesis, with or without a name. */
  function ReadGroup(s: string): (g: Option<GroupRead>)
    ensures g.Some? ==> g.value.group.Group? && |g.value.rest| < |s|
  {
    if |s| >= 3 && s[0] == '?' && s[1] == 'P' && s[2] == '<' then
      var n := WordRun(s[3..]);
      if IsIdentifier(s[3..3 + n]) && 3 + n < |s| && s[3 + n] == '>' then ReadClass(s[4 + n..], Some(s[3..3 + n])) else None
    else ReadClass(s, None)
  }

  function Parse(s: string): Option<seq<Atom>>
    decreases |s|
  {
    if s == "" then Some([])
    else if s[0] == '(' then
      var g := ReadGroup(s[1..]);
      if g.None? then None else Prepend(g.value.group, Parse(g.value.rest))
    else if IsPlain(s[0]) || s[0] == '/' || s[0] == '.' then Prepend(CharAtom(s[0]), Parse(s[1..]))
    else None
  }

  function CharAtom(c: char): Atom {
    if c == '.' then AnyChar else Chr(c)
  }

  function Chars(s: string): seq<Atom> {
    if s == "" then [] else [CharAtom(s[0])] + Chars(s[1..])
  }

  function LevelAtoms(l: Level): seq<Atom> {
    match l
    case Literal(t) => Chars(t)
    case Name(n) => [Group(Some(n), '/', 1)]
    case Plus => [Group(None, '/', 1)]
    case Hash => [Group(None, '\n', 1)]
  }

  /** The expression a pattern should compile to, level by level. */
  function Atoms(levels: seq<Level>): seq<Atom>
    requires levels != []
  {
    if |levels| == 1 then LevelAtoms(levels[0]) else LevelAtoms(levels[0]) + ([Chr('/')] + Atoms(levels[1..]))
  }

  // ---- the text translation produces those atoms ----

  function LevelRegex(l: Level): string {
    match l
    case Literal(t) => t
    case Name(n) => NamedGroup(n)
    case Plus => SegmentGroup()
    case Hash => RemainderGroup()
  }

  lemma ReplaceFirst(x: char, rest: string, c: char, with: string)
    ensures Replace([x] + rest, c, with) == (if x == c then with else [x]) + Replace(rest, c, with)
  {
    assert ([x] + rest)[1..] == rest;
  }

  lemma {:induction false} ReplaceAppend(a: string, b: string, c: char, with: string)
    ensures Replace(a + b, c, with) == Replace(a, c, with) + Replace(b, c, with)
  {
    if a == "" {
      assert a + b == b;
    } else {
      var x, rest := a[0], a[1..];
      ReplaceAppend(rest, b, c, with);
      hide Replace;
      assert a == [x] + rest;
      Assoc([x], rest, b);
      ReplaceFirst(x, rest, c, with);
      ReplaceFirst(x, rest + b, c, with);
      Assoc(if x == c then with else [x], Replace(rest, c, with), Replace(b, c, with));
    }
  }

  lemma {:induction false} ReplaceAbsent(a: string, c: char, with: string)
    requires c !in a
    ensures Replace(a, c, with) == a
  {
    if a != "" {
      var x, rest := a[0], a[1..];
      assert x in a && forall y :: y in rest ==> y in a;
      ReplaceAbsent(rest, c, with);
      hide Replace;
      ReplaceFirst(x, rest, c, with);
      assert a == [x] + rest;
    }
  }

  lemma {:induction false} SubNamesSkips(a: string, b: string)
    requires '{' !in a
    ensures SubNames(a + b) == a + SubNames(b)
  {
    if a == "" {
      assert a + b == b;
    } else {
      assert a[0] in a && forall x :: x in a[1..] ==> x in a;
      SubNamesSkips(a[1..], b);
      assert (a + b)[1..] == a[1..] + b;
    }
  }

  lemma {:induction false} WordRunOf(name: string, rest: string)
    requires forall i :: 0 <= i < |name| ==> IsWord(name[i])
    requires rest != "" && !IsWord(rest[0])
    ensures WordRun(name + rest) == |name|
  {
    if name == "" {
      assert name + rest == rest;
    } else {
      WordRunOf(name[1..], rest);
      assert (name + rest)[1..] == name[1..] + rest;
    }
  }

  lemma SubNamesOfName(name: string, b: string)
    requires name != "" && forall i :: 0 <= i < |name| ==> IsWord(name[i])
    ensures SubNames("{" + name + "}" + b) == NamedGroup(name) + SubNames(b)
  {
    var text := "{" + name + "}" + b;
    assert text[1..] == name + ("}" + b);
    WordRunOf(name, "}" + b);
    assert text[1..|name| + 1] == name && text[|name| + 2..] == b;
  }

  /** What the two replacements make of one level. */
  function Replaced(l: Level): string {
    Replace(Replace(LevelText(l), '+', SegmentGroup()), '#', RemainderGroup())
  }

  lemma ReplacedLevel(l: Level)
    requires IsLevel(l)
    ensures Replaced(l) == if l.Name? then LevelText(l) else LevelRegex(l)
    ensures !l.Name? ==> '{' !in LevelRegex(l)
  {
    hide SegmentGroup, RemainderGroup, Replace;
    match l {
      case Literal(t) =>
        ReplaceAbsent(t, '+', SegmentGroup());
        ReplaceAbsent(t, '#', RemainderGroup());
      case Name(n) =>
        ReplaceAbsent("{" + n + "}", '+', SegmentGroup());
        ReplaceAbsent("{" + n + "}", '#', RemainderGroup());
      case Plus =>
        ReplaceOne('+', SegmentGroup());
        ReplaceAbsent(SegmentGroup(), '#', RemainderGroup());
      case Hash =>
        ReplaceAbsent("#", '+', SegmentGroup());
        ReplaceOne('#', RemainderGroup());
    }
  }

  lemma ReplaceOne(c: char, with: string)
    ensures Replace([c], c, with) == with
  {
    assert Replace([c], c, with) == with + Replace([], c, with);
  }

  lemma SubNamesOfLevel(l: Level, b: string)
    requires IsLevel(l)
    ensures SubNames(Replaced(l) + b) == LevelRegex(l) + SubNames(b)
  {
    ReplacedLevel(l);
    if l.Name? {
      SubNamesOfName(l.name, b);
    } else {
      SubNamesSkips(LevelRegex(l), b);
    }
  }

  function BothReplaced(text: string): string {
    Replace(Replace(text, '+', SegmentGroup()), '#', RemainderGroup())
  }

  lemma BothReplacedAppend(a: string, b: string)
    ensures BothReplaced(a + b) == BothReplaced(a) + BothReplaced(b)
  {
    ReplaceAppend(a, b, '+', SegmentGroup());
    ReplaceAppend(Replace(a, '+', SegmentGroup()), Replace(b, '+', SegmentGroup()), '#', RemainderGroup());
  }

  /** The levels' expressions joined by slashes. */
  function Render(levels: seq<Level>): string
    requires levels != []
  {
    if |levels| == 1 then LevelRegex(levels[0]) else LevelRegex(levels[0]) + ("/" + Render(levels[1..]))
  }

  lemma {:induction false} TranslationRenders(levels: seq<Level>)
    requires WellFormed(levels)
    ensures SubNames(BothReplaced(PatternText(levels))) == Render(levels)
  {
    hide Replace, SubNames, LevelRegex, LevelText, IsLevel;
    var l := levels[0];
    if |levels| == 1 {
      SubNamesOfLevel(l, "");
      assert SubNames("") == "" by { SubNamesOfNothing(); }
      assert Replaced(l) + "" == Replaced(l) && LevelRegex(l) + "" == LevelRegex(l);
    } else {
      var rest := PatternText(levels[1..]);
      TranslationRenders(levels[1..]);
      BothReplacedAppend(LevelText(l), "/" + rest);
      BothReplacedAppend("/", rest);
      SlashUnchanged();
      assert LevelText(l) + "/" + rest == LevelText(l) + ("/" + rest);
      SubNamesOfLevel(l, "/" + BothReplaced(rest));
      SubNamesSkips("/", BothReplaced(rest));
    }
  }

  lemma SubNamesOfNothing()
    ensures SubNames("") == ""
  {
  }

  lemma SlashUnchanged()
    ensures BothReplaced("/") == "/"
  {
    ReplaceAbsent("/", '+', SegmentGroup());
    ReplaceAbsent("/", '#', RemainderGroup());
  }

  function PrependAll(a: seq<Atom>, rest: Option<seq<Atom>>): Option<seq<Atom>> {
    if rest.None? then None else Some(a + rest.value)
  }

  lemma ParseChar(c: char, b: string)
    requires IsPlain(c) || c == '/' || c == '.'
    ensures Parse([c] + b) == Prepend(CharAtom(c), Parse(b))
  {
    var s := [c] + b;
    assert s[0] == c && s[1..] == b && c != '(';
  }

  lemma {:induction false} ParseChars(t: string, b: string)
    requires IsLiteralText(t)
    ensures Parse(t + b) == PrependAll(Chars(t), Parse(b))
  {
    hide Parse, IsPlain;
    if t == "" {
      assert t + b == b;
      assert Parse(b).Some? ==> [] + Parse(b).value == Parse(b).value;
    } else {
      ParseChars(t[1..], b);
      assert t + b == [t[0]] + (t[1..] + b);
      ParseChar(t[0], t[1..] + b);
      if Parse(b).Some? {
        assert [CharAtom(t[0])] + (Chars(t[1..]) + Parse(b).value) == Chars(t) + Parse(b).value;
      }
    }
  }

  /** `[^/]+)` is read as a run of one or more characters that are no slash. */
  lemma ReadLevelClass(name: Option<string>, b: string)
    ensures ReadClass("[^/]+)" + b, name) == Some(GroupRead(Group(name, '/', 1), b))
  {
    var s := "[^/]+)" + b;
    assert s[0] == '[' && s[1] == '^' && s[2] == '/' && s[3] == ']';
    var t := s[4..];
    assert t[0] == '+' && t[1] == ')' && t[2..] == b;
  }

  /** `.+)` is read as a run of one or more characters that are no newline. */
  lemma ReadDotClass(b: string)
    ensures ReadClass(".+)" + b, None) == Some(GroupRead(Group(None, '\n', 1), b))
  {
    var s := ".+)" + b;
    assert s[0] == '.';
    var t := s[1..];
    assert t[0] == '+' && t[1] == ')' && t[2..] == b;
  }

  lemma ParseOfGroup(inner: string, g: GroupRead)
    requires ReadGroup(inner) == Some(g)
    ensures Parse("(" + inner) == Prepend(g.group, Parse(g.rest))
  {
    var s := "(" + inner;
    assert s[0] == '(' && s[1..] == inner;
    hide ReadGroup;
  }

  lemma ParseSegment(b: string)
    ensures Parse(SegmentGroup() + b) == Prepend(Group(None, '/', 1), Parse(b))
  {
    hide Parse;
    var inner := "[^/]+)" + b;
    ReadLevelClass(None, b);
    assert inner[0] == '[';
    ParseOfGroup(inner, GroupRead(Group(None, '/', 1), b));
    assert SegmentGroup() + b == "(" + inner;
  }

  lemma ParseRemainder(b: string)
    ensures Parse(RemainderGroup() + b) == Prepend(Group(None, '\n', 1), Parse(b))
  {
    hide Parse;
    var inner := ".+)" + b;
    ReadDotClass(b);
    assert inner[0] == '.';
    ParseOfGroup(inner, GroupRead(Group(None, '\n', 1), b));
    assert RemainderGroup() + b == "(" + inner;
  }

  lemma ReadNamed(n: string, b: string)
    requires IsIdentifier(n)
    ensures ReadGroup("?P<" + n + ">" + "[^/]+)" + b) == Some(GroupRead(Group(Some(n), '/', 1), b))
  {
    hide ReadClass, WordRun;
    var tail := "[^/]+)" + b;
    var s := "?P<" + n + ">" + "[^/]+)" + b;
    assert s[0] == '?' && s[1] == 'P' && s[2] == '<';
    assert s[3..] == n + (">" + tail);
    WordRunOf(n, ">" + tail);
    assert s[3..3 + |n|] == n && s[3 + |n|] == '>' && s[4 + |n|..] == tail;
    ReadLevelClass(Some(n), b);
  }

  lemma ParseName(n: string, b: string)
    requires IsIdentifier(n)
    ensures Parse(NamedGroup(n) + b) == Prepend(Group(Some(n), '/', 1), Parse(b))
  {
    hide Parse, ReadGroup;
    var inner := "?P<" + n + ">" + "[^/]+)" + b;
    ReadNamed(n, b);
    ParseOfGroup(inner, GroupRead(Group(Some(n), '/', 1), b));
    assert NamedGroup(n) + b == "(" + inner;
  }

  lemma ParseLevel(l: Level, b: string)
    requires IsLevel(l)
    ensures Parse(LevelRegex(l) + b) == PrependAll(LevelAtoms(l), Parse(b))
  {
    hide SegmentGroup, RemainderGroup, NamedOpen, NamedClose, IsIdentifier, IsLiteralText, Chars, Parse;
    match l {
      case Literal(t) => ParseChars(t, b);
      case Name(n) => ParseName(n, b);
      case Plus => ParseSegment(b);
      case Hash => ParseRemainder(b);
    }
  }

  lemma {:induction false} RenderParses(levels: seq<Level>)
    requires WellFormed(levels)
    ensures Parse(Render(levels)) == Some(Atoms(levels))
  {
    hide Parse, LevelRegex, LevelAtoms, IsLevel;
    var l := levels[0];
    if |levels| == 1 {
      ParseLevel(l, "");
      assert LevelRegex(l) + "" == LevelRegex(l);
      ParseNothing();
      assert LevelAtoms(l) + [] == LevelAtoms(l);
    } else {
      var rest := Render(levels[1..]);
      RenderParses(levels[1..]);
      ParseLevel(l, "/" + rest);
      ParseChar('/', rest);
    }
  }

  lemma ParseNothing()
    ensures Parse("") == Some([])
  {
  }

  lemma GroupNamesFirst(x: Atom, rest: seq<Atom>)
    ensures GroupNames([x] + rest) == NameOf(x) + GroupNames(rest)
  {
    assert ([x] + rest)[1..] == rest;
  }

  lemma {:induction false} GroupNamesAppend(a: seq<Atom>, b: seq<Atom>)
    ensures GroupNames(a + b) == GroupNames(a) + GroupNames(b)
  {
    if a == [] {
      assert a + b == b;
    } else {
      var x, rest := a[0], a[1..];
      GroupNamesAppend(rest, b);
      hide GroupNames;
      assert a == [x] + rest;
      Assoc([x], rest, b);
      GroupNamesFirst(x, rest);
      GroupNamesFirst(x, rest + b);
      Assoc(NameOf(x), GroupNames(rest), GroupNames(b));
    }
  }

  lemma {:induction false} CharsHaveNoNames(t: string)
    ensures GroupNames(Chars(t)) == []
  {
    if t != "" {
      CharsHaveNoNames(t[1..]);
      assert Chars(t)[1..] == Chars(t[1..]);
    }
  }

  lemma NamesOfLevel(l: Level)
    ensures GroupNames(LevelAtoms(l)) == if l.Name? then [l.name] else []
  {
    if l.Literal? {
      CharsHaveNoNames(l.text);
    } else {
      assert LevelAtoms(l)[1..] == [];
    }
  }

  lemma SlashNamesNothing(atoms: seq<Atom>)
    ensures GroupNames([Chr('/')] + atoms) == GroupNames(atoms)
  {
    assert ([Chr('/')] + atoms)[1..] == atoms;
  }

  lemma {:induction false} NamesOfAtoms(levels: seq<Level>)
    requires levels != []
    ensures GroupNames(Atoms(levels)) == NamesOf(levels)
  {
    hide LevelAtoms, GroupNames;
    var l := levels[0];
    NamesOfLevel(l);
    if |levels| > 1 {
      NamesOfAtoms(levels[1..]);
      GroupNamesAppend(LevelAtoms(l), [Chr('/')] + Atoms(levels[1..]));
      SlashNamesNothing(Atoms(levels[1..]));
    }
  }

  /** No capture name stands at two levels. */
  predicate NamesOnce(levels: seq<Level>) {
    forall i, j :: 0 <= i < j < |levels| && levels[i].Name? ==> levels[i] != levels[j]
  }

  lemma NamesOnceFirst(l: Level, rest: seq<Level>)
    ensures NamesOnce([l] + rest) <==> (l.Name? ==> l !in rest) && NamesOnce(rest)
  {
    var all := [l] + rest;
    assert forall i :: 0 <= i < |rest| ==> all[i + 1] == rest[i];
    if NamesOnce(all) {
      forall i, j | 0 <= i < j < |rest| && rest[i].Name?
        ensures rest[i] != rest[j]
      {
        assert all[i + 1] != all[j + 1];
      }
      forall j | 0 <= j < |rest| && l.Name?
        ensures rest[j] != l
      {
        assert all[0] != all[j + 1];
      }
    }
  }

  /** A name is used twice exactly when two of the levels are `{name}` with that name. */
  lemma {:induction false} NamesClashIff(levels: seq<Level>)
    ensures forall n :: n in NamesOf(levels) <==> Name(n) in levels
    ensures Distinct(NamesOf(levels)) <==> NamesOnce(levels)
  {
    if levels != [] {
      var l, rest := levels[0], levels[1..];
      NamesClashIff(rest);
      assert levels == [l] + rest;
      NamesOnceFirst(l, rest);
      if l.Name? {
        DistinctFirst(l.name, NamesOf(rest));
      } else {
        assert [] + NamesOf(rest) == NamesOf(rest);
      }
      hide Distinct, NamesOnce;
    }
  }

  lemma DistinctFirst<T>(x: T, rest: seq<T>)
    ensures Distinct([x] + rest) <==> x !in rest && Distinct(rest)
  {
    var s := [x] + rest;
    assert forall i :: 0 <= i < |rest| ==> s[i + 1] == rest[i];
    if Distinct(s) {
      forall i, j | 0 <= i < j < |rest|
        ensures rest[i] != rest[j]
      {
        assert s[i + 1] != s[j + 1];
      }
      forall i | 0 <= i < |rest|
        ensures rest[i] != x
      {
        assert s[0] != s[i + 1];
      }
    }
  }

  /** The text `route` builds compiles to the level-by-level expression, unless a name is used twice. */
  lemma PatternCompiles(levels: seq<Level>)
    requires WellFormed(levels)
    ensures Compile(RegexText(PatternText(levels)))
         == if Distinct(NamesOf(levels)) then Some(Atoms(levels)) else None
  {
    TranslationRenders(levels);
    RenderParses(levels);
    NamesOfAtoms(levels);
    var text := RegexText(PatternText(levels));
    assert text[1..|text| - 1] == Render(levels);
  }

  // ---- what the compiled expression matches ----

  /** The atom stands for one character, outside any group. */
  predicate IsSingle(a: Atom) {
    a.Chr? || a.AnyChar?
  }

  /** The character it may stand for; a dot is for any but a newline. */
  predicate Takes(a: Atom, c: char)
    requires IsSingle(a)
  {
    if a.Chr? then c == a.c else c != '\n'
  }

  /** A character the atom's group accepts. */
  predicate Accepts(a: Atom, c: char)
    requires !IsSingle(a)
  {
    c != a.except
  }

  /** The whole text matches, with these texts captured by the groups in order. */
  ghost predicate Matches(atoms: seq<Atom>, text: string, caps: seq<string>) {
    if atoms == [] then text == "" && caps == []
    else if IsSingle(atoms[0]) then text != "" && Takes(atoms[0], text[0]) && Matches(atoms[1..], text[1..], caps)
    else
      && caps != [] && |caps[0]| >= atoms[0].least && caps[0] <= text
      && (forall i :: 0 <= i < |caps[0]| ==> Accepts(atoms[0], caps[0][i]))
      && Matches(atoms[1..], text[|caps[0]|..], caps[1..])
  }

  predicate EndsInNewline(text: string) {
    text != "" && text[|text| - 1] == '\n'
  }

  /** The text without its last character. */
  function Chopped(text: string): string
    requires text != ""
  {
    text[..|text| - 1]
  }

  /** `$` holds at the end of the text and before a newline that ends it. */
  ghost predicate AnchoredMatch(atoms: seq<Atom>, text: string, caps: seq<string>) {
    Matches(atoms, text, caps) || (EndsInNewline(text) && Matches(atoms, Chopped(text), caps))
  }

  /** Backtracking search: a group takes as much as it can first and gives back one character at a time. */
  function Search(atoms: seq<Atom>, text: string): Option<seq<string>>
    decreases |atoms|, 1, 0
  {
    if atoms == [] then if text == "" || text == "\n" then Some([]) else None
    else if IsSingle(atoms[0]) then
      if text != "" && Takes(atoms[0], text[0]) then Search(atoms[1..], text[1..]) else None
    else
      var n := AcceptedRun(atoms[0], text);
      if n < atoms[0].least then None else TryLengths(atoms, text, n)
  }

  function AcceptedRun(a: Atom, text: string): (n: nat)
    requires !IsSingle(a)
    ensures n <= |text|
    ensures forall i :: 0 <= i < n ==> Accepts(a, text[i])
    ensures n < |text| ==> !Accepts(a, text[n])
  {
    if text == "" || !Accepts(a, text[0]) then 0 else 1 + AcceptedRun(a, text[1..])
  }

  function TryLengths(atoms: seq<Atom>, text: string, n: nat): Option<seq<string>>
    requires atoms != [] && !IsSingle(atoms[0]) && atoms[0].least <= n <= |text|
    decreases |atoms|, 0, n
  {
    var rest := Search(atoms[1..], text[n..]);
    if rest.Some? then Some([text[..n]] + rest.value)
    else if n == atoms[0].least then None
    else TryLengths(atoms, text, n - 1)
  }

  /** At the first group where the two differ, a took the longer text. */
  ghost predicate Greedier(a: seq<string>, b: seq<string>) {
    if a == [] then b == []
    else b != [] && (|a[0]| > |b[0]| || (a[0] == b[0] && Greedier(a[1..], b[1..])))
  }

  lemma AnchoredFirst(atoms: seq<Atom>, text: string, caps: seq<string>)
    requires atoms != []
    ensures IsSingle(atoms[0]) ==>
      (AnchoredMatch(atoms, text, caps)
       <==> text != "" && Takes(atoms[0], text[0]) && AnchoredMatch(atoms[1..], text[1..], caps))
    ensures !IsSingle(atoms[0]) ==>
      (AnchoredMatch(atoms, text, caps)
       <==> caps != [] && |caps[0]| >= atoms[0].least && caps[0] <= text
            && (forall i :: 0 <= i < |caps[0]| ==> Accepts(atoms[0], caps[0][i]))
            && AnchoredMatch(atoms[1..], text[|caps[0]|..], caps[1..]))
  {
    if IsSingle(atoms[0]) {
      AnchoredSingle(atoms, text, caps);
    } else {
      AnchoredGroup(atoms, text, caps);
    }
  }

  lemma AnchoredSingle(atoms: seq<Atom>, text: string, caps: seq<string>)
    requires atoms != [] && IsSingle(atoms[0])
    ensures AnchoredMatch(atoms, text, caps)
       <==> text != "" && Takes(atoms[0], text[0]) && AnchoredMatch(atoms[1..], text[1..], caps)
  {
    if |text| > 1 && EndsInNewline(text) {
      assert Chopped(text)[1..] == Chopped(text[1..]) && EndsInNewline(text[1..]);
    }
  }

  lemma AnchoredGroup(atoms: seq<Atom>, text: string, caps: seq<string>)
    requires atoms != [] && !IsSingle(atoms[0])
    ensures AnchoredMatch(atoms, text, caps)
       <==> caps != [] && |caps[0]| >= atoms[0].least && caps[0] <= text
            && (forall i :: 0 <= i < |caps[0]| ==> Accepts(atoms[0], caps[0][i]))
            && AnchoredMatch(atoms[1..], text[|caps[0]|..], caps[1..])
  {
    if caps != [] && EndsInNewline(text) {
      var n := |caps[0]|;
      assert n < |text| ==> EndsInNewline(text[n..]) && Chopped(text[n..]) == Chopped(text)[n..];
      assert n < |text| && caps[0] <= text ==> caps[0] <= Chopped(text);
    }
  }

  /** The search finds a match whenever there is one, and of all matches the greediest. */
  lemma {:induction false} SearchFindsMatches(atoms: seq<Atom>, text: string)
    ensures Search(atoms, text).Some? ==> AnchoredMatch(atoms, text, Search(atoms, text).value)
    ensures forall caps :: AnchoredMatch(atoms, text, caps) ==>
      Search(atoms, text).Some? && Greedier(Search(atoms, text).value, caps)
    decreases |atoms|, 1, 0
  {
    if atoms == [] {
      assert EndsInNewline(text) && Chopped(text) == "" ==> text == "\n";
    } else {
      forall caps
        ensures IsSingle(atoms[0]) ==>
          (AnchoredMatch(atoms, text, caps)
           <==> text != "" && Takes(atoms[0], text[0]) && AnchoredMatch(atoms[1..], text[1..], caps))
        ensures !IsSingle(atoms[0]) ==>
          (AnchoredMatch(atoms, text, caps)
           <==> caps != [] && |caps[0]| >= atoms[0].least && caps[0] <= text
                && (forall i :: 0 <= i < |caps[0]| ==> Accepts(atoms[0], caps[0][i]))
                && AnchoredMatch(atoms[1..], text[|caps[0]|..], caps[1..]))
      {
        AnchoredFirst(atoms, text, caps);
      }
      hide AnchoredMatch, Greedier;
      if IsSingle(atoms[0]) {
        if text != "" && Takes(atoms[0], text[0]) {
          SearchFindsMatches(atoms[1..], text[1..]);
        }
      } else {
        var n := AcceptedRun(atoms[0], text);
        if n >= atoms[0].least {
          TryLengthsFindsMatches(atoms, text, n);
        }
        forall caps | AnchoredMatch(atoms, text, caps)
          ensures |caps[0]| <= n
        {
        }
      }
    }
  }

  lemma {:induction false} TryLengthsFindsMatches(atoms: seq<Atom>, text: string, n: nat)
    requires atoms != [] && !IsSingle(atoms[0]) && atoms[0].least <= n <= |text|
    requires forall i :: 0 <= i < n ==> Accepts(atoms[0], text[i])
    ensures TryLengths(atoms, text, n).Some? ==> AnchoredMatch(atoms, text, TryLengths(atoms, text, n).value)
    ensures forall caps :: AnchoredMatch(atoms, text, caps) && |caps[0]| <= n ==>
      TryLengths(atoms, text, n).Some? && Greedier(TryLengths(atoms, text, n).value, caps)
    decreases |atoms|, 0, n
  {
    forall caps | AnchoredMatch(atoms, text, caps)
      ensures caps != [] && |caps[0]| >= atoms[0].least && caps[0] <= text
      ensures AnchoredMatch(atoms[1..], text[|caps[0]|..], caps[1..])
    {
      AnchoredFirst(atoms, text, caps);
    }
    hide AnchoredMatch;
    SearchFindsMatches(atoms[1..], text[n..]);
    var rest := Search(atoms[1..], text[n..]);
    if rest.Some? {
      var found := [text[..n]] + rest.value;
      assert found[1..] == rest.value;
      AnchoredFirst(atoms, text, found);
      forall caps | AnchoredMatch(atoms, text, caps) && |caps[0]| == n
        ensures Greedier(found, caps)
      {
        assert caps[0] == text[..n];
      }
    } else if n > atoms[0].least {
      TryLengthsFindsMatches(atoms, text, n - 1);
    }
  }

  // ---- matching level by level ----

  /** No literal level holds a dot, which would stand for any character. */
  predicate Undotted(levels: seq<Level>) {
    forall i :: 0 <= i < |levels| && levels[i].Literal? ==> '.' !in levels[i].text
  }

  /**
   * What each non-literal level captures when the levels match one by one; nothing captured may be
   * empty, and what `#` captures may not hold a newline.
   */
  function Capture(levels: seq<Level>, parts: seq<string>): Option<seq<string>> {
    if levels == [] then if parts == [] then Some([]) else None
    else if parts == [] then None
    else
      match levels[0]
      case Literal(t) => if parts[0] == t then Capture(levels[1..], parts[1..]) else None
      case Hash =>
        var rest := Join(parts, '/');
        if |levels| == 1 && rest != "" && '\n' !in rest then Some([rest]) else None
      case _ =>
        var rest := Capture(levels[1..], parts[1..]);
        if parts[0] != "" && rest.Some? then Some([parts[0]] + rest.value) else None
  }

  lemma {:induction false} MatchesChars(t: string, atoms: seq<Atom>, text: string, caps: seq<string>)
    requires '.' !in t
    ensures Matches(Chars(t) + atoms, text, caps) <==> t <= text && Matches(atoms, text[|t|..], caps)
  {
    if t == "" {
      assert Chars(t) + atoms == atoms;
    } else {
      assert (Chars(t) + atoms)[1..] == Chars(t[1..]) + atoms;
      assert t[0] in t && forall c :: c in t[1..] ==> c in t;
      if text != "" && text[0] == t[0] {
        MatchesChars(t[1..], atoms, text[1..], caps);
        assert t <= text <==> t[1..] <= text[1..];
        assert t <= text ==> text[1..][|t| - 1..] == text[|t|..];
      }
    }
  }

  /** The text up to the first slash, and whether there is one. */
  lemma FirstLevel(text: string) returns (a: string, b: string)
    ensures '/' !in a
    ensures if '/' in text then text == a + "/" + b && Split(text, '/') == [a] + Split(b, '/')
            else text == a && Split(text, '/') == [a]
  {
    if '/' in text {
      var k :| 0 <= k < |text| && text[k] == '/' && '/' !in text[..k] by {
        FirstSlash(text);
      }
      a, b := text[..k], text[k + 1..];
      assert text == a + "/" + b;
      SplitAtFirst(a, b, '/');
    } else {
      a, b := text, "";
      SplitOfFree(text, '/');
    }
  }

  lemma {:induction false} FirstSlash(text: string)
    requires '/' in text
    ensures exists k :: 0 <= k < |text| && text[k] == '/' && '/' !in text[..k]
  {
    var k := 0;
    while text[k] != '/'
      invariant 0 <= k < |text| && '/' !in text[..k]
      decreases |text| - k
    {
      assert exists j :: 0 <= j < |text| && text[j] == '/';
      k := k + 1;
    }
  }

  lemma LastLiteral(t: string, text: string, caps: seq<string>)
    requires '.' !in t
    ensures Matches(Chars(t), text, caps) <==> text == t && caps == []
  {
    MatchesChars(t, [], text, caps);
    assert Chars(t) + [] == Chars(t);
    assert t <= text ==> text == t + text[|t|..];
  }

  lemma LiteralLevel(t: string, more: seq<Atom>, text: string, caps: seq<string>, a: string, b: string)
    requires '/' !in t && '.' !in t && '/' !in a
    requires if '/' in text then text == a + "/" + b else text == a
    ensures Matches(Chars(t) + ([Chr('/')] + more), text, caps) <==> '/' in text && a == t && Matches(more, b, caps)
  {
    var rest := [Chr('/')] + more;
    MatchesChars(t, rest, text, caps);
    hide Chars;
    assert rest[1..] == more;
    if t <= text {
      SamePrefix(t, a, text, b);
      assert Matches(rest, text[|t|..], caps)
          == (text[|t|..] != "" && text[|t|..][0] == '/' && Matches(more, text[|t|..][1..], caps));
      assert |t| < |text| ==> text[|t|..][1..] == text[|t| + 1..];
    }
  }

  /** A slash-free prefix followed by a slash, or by nothing, is the first level. */
  lemma SamePrefix(p: string, a: string, text: string, b: string)
    requires '/' !in p && '/' !in a && p <= text
    requires if '/' in text then text == a + "/" + b else text == a
    ensures |p| == |text| ==> '/' !in text && a == p
    ensures |p| < |text| && text[|p|] == '/' ==> '/' in text && a == p && text[|p| + 1..] == b
    ensures |p| <= |a|
  {
    if '/' in text {
      assert text[|a|] == '/';
      if |p| > |a| {
        assert false;
      }
    } else {
      assert text == a;
    }
    if |p| < |text| && text[|p|] == '/' {
      assert text[|p|] in text;
      if |p| < |a| {
        assert false;
      }
    }
  }

  /** A group for one level: `[^/]+`, named or not. */
  predicate IsLevelGroup(g: Atom) {
    g.Group? && g.except == '/' && g.least == 1
  }

  lemma GroupLevel(g: Atom, more: seq<Atom>, text: string, caps: seq<string>, a: string, b: string)
    requires IsLevelGroup(g)
    requires '/' !in a
    requires if '/' in text then text == a + "/" + b else text == a
    ensures Matches([g], text, caps) <==> '/' !in text && a != "" && caps == [a]
    ensures Matches([g] + ([Chr('/')] + more), text, caps)
       <==> '/' in text && a != "" && caps != [] && caps[0] == a && Matches(more, b, caps[1..])
  {
    LastGroup(g, text, caps, a, b);
    GroupThenSlash(g, more, text, caps, a, b);
    hide *;
  }

  /** A group that is followed by a slash or by nothing captures the first level, all of it. */
  lemma GroupTakesLevel(g: Atom, cap: string, text: string, a: string, b: string)
    requires IsLevelGroup(g) && '/' !in a && cap <= text
    requires if '/' in text then text == a + "/" + b else text == a
    requires forall i :: 0 <= i < |cap| ==> Accepts(g, cap[i])
    ensures |cap| == |text| ==> '/' !in text && a == cap
    ensures |cap| < |text| && text[|cap|] == '/' ==> '/' in text && a == cap && text[|cap| + 1..] == b
  {
    assert '/' !in cap;
    SamePrefix(cap, a, text, b);
  }

  lemma LastGroup(g: Atom, text: string, caps: seq<string>, a: string, b: string)
    requires IsLevelGroup(g) && '/' !in a
    requires if '/' in text then text == a + "/" + b else text == a
    ensures Matches([g], text, caps) <==> '/' !in text && a != "" && caps == [a]
  {
    assert [g][1..] == [];
    assert caps == [a] ==> caps[1..] == [];
    assert |caps| == 1 ==> caps == [caps[0]];
    assert forall i :: 0 <= i < |a| ==> a[i] in a;
    if caps != [] && caps[0] <= text && forall i :: 0 <= i < |caps[0]| ==> Accepts(g, caps[0][i]) {
      GroupTakesLevel(g, caps[0], text, a, b);
      assert Matches([], text[|caps[0]|..], caps[1..]) <==> |caps[0]| == |text| && |caps| == 1;
    }
  }

  lemma GroupThenSlash(g: Atom, more: seq<Atom>, text: string, caps: seq<string>, a: string, b: string)
    requires IsLevelGroup(g) && '/' !in a
    requires if '/' in text then text == a + "/" + b else text == a
    ensures Matches([g] + ([Chr('/')] + more), text, caps)
       <==> '/' in text && a != "" && caps != [] && caps[0] == a && Matches(more, b, caps[1..])
  {
    var rest := [Chr('/')] + more;
    assert ([g] + rest)[1..] == rest && rest[1..] == more;
    assert forall i :: 0 <= i < |a| ==> a[i] in a;
    if '/' in text {
      assert text[|a|..] == "/" + b && ("/" + b)[1..] == b;
    }
    if caps != [] && caps[0] <= text && forall i :: 0 <= i < |caps[0]| ==> Accepts(g, caps[0][i]) {
      GroupTakesLevel(g, caps[0], text, a, b);
    }
  }

  lemma RestLevel(text: string, caps: seq<string>)
    ensures Matches([Group(None, '\n', 1)], text, caps) <==> text != "" && '\n' !in text && caps == [text]
  {
    assert [Group(None, '\n', 1)][1..] == [];
    if Matches([Group(None, '\n', 1)], text, caps) {
      assert Matches([], text[|caps[0]|..], caps[1..]);
      assert caps == [caps[0]] && caps[0] == text;
    }
    if text != "" && '\n' !in text && caps == [text] {
      assert text[|text|..] == "" && caps[1..] == [];
      assert forall i :: 0 <= i < |text| ==> text[i] in text;
      assert Matches([], text[|caps[0]|..], caps[1..]);
    }
  }

  /**
   * The expression of a pattern without dots matches a whole text exactly when the levels match one by one, and
   * its groups capture exactly what the wildcard levels stand for.
   */
  lemma {:induction false} RegexIsLevelMatch(levels: seq<Level>, text: string, caps: seq<string>)
    requires WellFormed(levels) && Undotted(levels)
    ensures Matches(Atoms(levels), text, caps) <==> Capture(levels, Split(text, '/')) == Some(caps)
  {
    hide Matches, Split, Chars, Join;
    var l := levels[0];
    var a, b := FirstLevel(text);
    JoinOfSplit(text, '/');
    if l == Hash {
      RestLevel(text, caps);
    } else {
      var more := if |levels| == 1 then [] else Atoms(levels[1..]);
      if '/' in text && |levels| > 1 {
        RegexIsLevelMatch(levels[1..], b, caps);
        if caps != [] {
          RegexIsLevelMatch(levels[1..], b, caps[1..]);
        }
      }
      var rest := Capture(levels[1..], Split(text, '/')[1..]);
      assert rest.Some? ==> ([a] + rest.value)[1..] == rest.value;
      assert caps != [] ==> caps == [caps[0]] + caps[1..];
      match l {
        case Literal(t) =>
          assert '/' !in t && '.' !in t;
          LastLiteral(t, text, caps);
          LiteralLevel(t, more, text, caps, a, b);
        case Name(n) =>
          GroupLevel(Group(Some(n), '/', 1), more, text, caps, a, b);
        case Plus =>
          GroupLevel(Group(None, '/', 1), more, text, caps, a, b);
      }
    }
  }

  /** The parts with one more character at the end of the last. */
  function Lengthened(parts: seq<string>, c: char): seq<string>
    requires parts != []
  {
    parts[..|parts| - 1] + [parts[|parts| - 1] + [c]]
  }

  lemma SplitOfChopped(text: string)
    requires EndsInNewline(text)
    ensures Split(text, '/') == Lengthened(Split(Chopped(text), '/'), '\n')
  {
    assert text == Chopped(text) + "\n";
    SplitOfFree("\n", '/');
    SplitAppend(Chopped(text), "\n", '/');
  }

  lemma {:induction false} JoinOfLengthened(parts: seq<string>, c: char)
    requires parts != []
    ensures Join(Lengthened(parts, c), '/') == Join(parts, '/') + [c]
  {
    if |parts| > 1 {
      JoinOfLengthened(parts[1..], c);
      assert Lengthened(parts, c)[1..] == Lengthened(parts[1..], c);
    }
  }

  /** Where both a text and its continuation by a newline match, the continuation's match is the greedier. */
  lemma {:induction false} LongerIsGreedier(levels: seq<Level>, parts: seq<string>)
    requires parts != [] && Capture(levels, parts).Some? && Capture(levels, Lengthened(parts, '\n')).Some?
    ensures !Greedier(Capture(levels, parts).value, Capture(levels, Lengthened(parts, '\n')).value)
  {
    var longer := Lengthened(parts, '\n');
    if levels[0] == Hash {
      JoinOfLengthened(parts, '\n');
    } else if |parts| > 1 {
      assert longer[1..] == Lengthened(parts[1..], '\n') && longer[0] == parts[0];
      LongerIsGreedier(levels[1..], parts[1..]);
      if !levels[0].Literal? {
        var a, b := Capture(levels[1..], parts[1..]).value, Capture(levels[1..], longer[1..]).value;
        assert ([parts[0]] + a)[1..] == a && ([parts[0]] + b)[1..] == b;
      }
    } else {
      assert longer[0] == parts[0] + "\n";
    }
  }

  /** The topic as the router reads it: a newline at its end is ignored where the levels do not match with it. */
  function RoutedParts(levels: seq<Level>, topic: string): seq<string> {
    if Capture(levels, Split(topic, '/')).None? && EndsInNewline(topic) then Split(Chopped(topic), '/')
    else Split(topic, '/')
  }

  /** So the router's search returns just the captures of the levels, or finds nothing. */
  lemma SearchIsLevelMatch(levels: seq<Level>, text: string)
    requires WellFormed(levels) && Undotted(levels)
    ensures Search(Atoms(levels), text) == Capture(levels, RoutedParts(levels, text))
  {
    var atoms, found, whole := Atoms(levels), Search(Atoms(levels), text), Capture(levels, Split(text, '/'));
    SearchFindsMatches(atoms, text);
    forall caps
      ensures AnchoredMatch(atoms, text, caps)
         <==> whole == Some(caps) || (EndsInNewline(text) && Capture(levels, Split(Chopped(text), '/')) == Some(caps))
    {
      RegexIsLevelMatch(levels, text, caps);
      if EndsInNewline(text) {
        RegexIsLevelMatch(levels, Chopped(text), caps);
      }
    }
    hide AnchoredMatch, Capture, Search, Greedier, Split, Atoms;
    if whole.Some? {
      assert AnchoredMatch(atoms, text, whole.value);
      if EndsInNewline(text) && Capture(levels, Split(Chopped(text), '/')).Some? {
        SplitOfChopped(text);
        LongerIsGreedier(levels, Split(Chopped(text), '/'));
      }
    } else if EndsInNewline(text) && Capture(levels, Split(Chopped(text), '/')).Some? {
      assert AnchoredMatch(atoms, text, Capture(levels, Split(Chopped(text), '/')).value);
    }
  }

  // ---- against the MQTT standard ----

  /** Sections 4.7.1.2 and 4.7.1.3 of MQTT 3.1.1, with `{name}` read as a single-level wildcard. */
  predicate FilterMatches(levels: seq<Level>, parts: seq<string>) {
    if levels == [] then parts == []
    else if levels[0] == Hash then |levels| == 1
    else if parts == [] then false
    else (levels[0].Literal? ==> parts[0] == levels[0].text) && FilterMatches(levels[1..], parts[1..])
  }

  /**
   * Level by level: without `#` there are as many topic levels as pattern levels, with a final `#` at
   * least as many as before it, and every literal level equals its topic level.
   */
  lemma {:induction false} FilterIsLevelwise(levels: seq<Level>, parts: seq<string>)
    requires forall i :: 0 <= i < |levels| - 1 ==> levels[i] != Hash
    ensures var fixed := if levels != [] && levels[|levels| - 1] == Hash then |levels| - 1 else |levels|;
      FilterMatches(levels, parts)
      <==> (if fixed < |levels| then |parts| >= fixed else |parts| == fixed)
           && forall i :: 0 <= i < fixed && levels[i].Literal? ==> parts[i] == levels[i].text
  {
    if levels != [] && parts != [] && levels[0] != Hash {
      var l, p := levels[1..], parts[1..];
      FilterIsLevelwise(l, p);
      var fixed := if l != [] && l[|l| - 1] == Hash then |l| - 1 else |l|;
      if |p| >= fixed {
        assert (forall i :: 0 <= i < fixed + 1 && levels[i].Literal? ==> parts[i] == levels[i].text)
          <==> (levels[0].Literal? ==> parts[0] == levels[0].text)
               && (forall i :: 0 <= i < fixed && l[i].Literal? ==> p[i] == l[i].text) by {
          assert forall i :: 1 <= i < fixed + 1 ==> levels[i] == l[i - 1] && parts[i] == p[i - 1];
          assert forall i :: 0 <= i < fixed ==> l[i] == levels[i + 1] && p[i] == parts[i + 1];
        }
      }
    }
  }

  /** Some wildcard level has only the empty text to stand for, or `#` a text with a newline. */
  predicate WildcardRefuses(levels: seq<Level>, parts: seq<string>) {
    if levels == [] then false
    else if levels[0] == Hash then parts == [] || Join(parts, '/') == "" || '\n' in Join(parts, '/')
    else if parts == [] then false
    else (!levels[0].Literal? && parts[0] == "") || WildcardRefuses(levels[1..], parts[1..])
  }

  /** The levels match exactly what the filter matches, where no wildcard refuses what it would stand for. */
  lemma {:induction false} RouterAgainstStandard(levels: seq<Level>, parts: seq<string>)
    requires forall i :: 0 <= i < |levels| - 1 ==> levels[i] != Hash
    ensures Capture(levels, parts).Some? <==> FilterMatches(levels, parts) && !WildcardRefuses(levels, parts)
  {
    if levels != [] && parts != [] {
      RouterAgainstStandard(levels[1..], parts[1..]);
    }
  }

  /** With section 4.7.2: a filter that starts with a wildcard matches no topic that starts with `$`. */
  predicate Subscribes(levels: seq<Level>, topic: string) {
    && FilterMatches(levels, Split(topic, '/'))
    && (topic != "" && topic[0] == '$' ==> levels != [] && levels[0].Literal?)
  }

  /** A wildcard at the end that stands for something covers one more character; a literal does not. */
  lemma {:induction false} FilterOfLengthened(levels: seq<Level>, parts: seq<string>, c: char)
    requires levels != [] && parts != [] && Capture(levels, parts).Some?
    ensures FilterMatches(levels, Lengthened(parts, c)) <==> !levels[|levels| - 1].Literal?
  {
    var longer := Lengthened(parts, c);
    if levels[0] != Hash && |parts| > 1 {
      assert longer[1..] == Lengthened(parts[1..], c) && longer[0] == parts[0];
      FilterOfLengthened(levels[1..], parts[1..], c);
    } else if levels[0] != Hash {
      assert longer[0] == parts[0] + [c] && longer[1..] == [];
      assert |levels| == 1 by {
        if |levels| > 1 {
          NothingLeft(levels[1..]);
        }
      }
    }
  }

  lemma NothingLeft(levels: seq<Level>)
    requires levels != []
    ensures Capture(levels, []) == None
  {
  }

  /**
   * With a literal first level, the router routes a topic that the standard's filter does not match
   * exactly when the pattern ends in a literal level and the topic is a match followed by a newline.
   */
  lemma RoutedBeyondSubscription(levels: seq<Level>, topic: string)
    requires WellFormed(levels) && Undotted(levels) && levels[0].Literal?
    ensures Search(Atoms(levels), topic).Some? && !Subscribes(levels, topic)
       <==> levels[|levels| - 1].Literal? && EndsInNewline(topic) && Capture(levels, Split(Chopped(topic), '/')).Some?
  {
    SearchIsLevelMatch(levels, topic);
    RouterAgainstStandard(levels, Split(topic, '/'));
    if EndsInNewline(topic) {
      var parts := Split(Chopped(topic), '/');
      RouterAgainstStandard(levels, parts);
      SplitOfChopped(topic);
      hide Capture, FilterMatches, WildcardRefuses, Split, Atoms, Search;
      if Capture(levels, parts).Some? {
        FilterOfLengthened(levels, parts, '\n');
      }
    }
  }

  /** So on topics that do not end in a newline, whatever the router matches the standard's filter matches too. */
  lemma RouterMatchIsSubscription(levels: seq<Level>, topic: string)
    requires WellFormed(levels) && Undotted(levels) && levels[0].Literal? && !EndsInNewline(topic)
    ensures Search(Atoms(levels), topic).Some? ==> Subscribes(levels, topic)
  {
    RoutedBeyondSubscription(levels, topic);
  }

  /** The converse fails: `a/#` as a filter covers the topic `a`, but the router does not route it. */
  lemma ParentTopicIsNotRouted()
    ensures var levels := [Literal("a"), Hash];
      WellFormed(levels) && Subscribes(levels, "a") && Search(Atoms(levels), "a") == None
  {
    var levels := [Literal("a"), Hash];
    SplitOfFree("a", '/');
    assert levels[1..] == [Hash] && ["a"][1..] == [];
    SearchIsLevelMatch(levels, "a");
  }

  /** A pattern that ends in a literal level also routes its topic followed by a newline. */
  lemma FinalNewlineIsRouted()
    ensures var levels := [Literal("a")];
      WellFormed(levels) && Search(Atoms(levels), "a\n") == Some([]) && !Subscribes(levels, "a\n")
  {
    var levels := [Literal("a")];
    assert Chopped("a\n") == "a";
    SplitOfFree("a", '/');
    SplitOfFree("a\n", '/');
    SearchIsLevelMatch(levels, "a\n");
  }

  // ---- dots in literal levels ----

  /** The text with something else in the place of every dot. */
  function WithoutDots(t: string): string {
    if t == "" then "" else [if t[0] == '.' then '_' else t[0]] + WithoutDots(t[1..])
  }

  /** A topic level the pattern's level matches, differing from a literal where that holds a dot. */
  function SampleText(l: Level): string {
    if l.Literal? then WithoutDots(l.text) else "x"
  }

  function Sample(levels: seq<Level>): (parts: seq<string>)
    ensures |parts| == |levels|
  {
    if levels == [] then [] else [SampleText(levels[0])] + Sample(levels[1..])
  }

  function SampleCaptures(levels: seq<Level>): seq<string> {
    if levels == [] then [] else (if levels[0].Literal? then [] else ["x"]) + SampleCaptures(levels[1..])
  }

  lemma {:induction false} WithoutDotsFacts(t: string)
    requires IsLiteralText(t)
    ensures '/' !in WithoutDots(t) && '\n' !in WithoutDots(t)
    ensures WithoutDots(t) == t <==> '.' !in t
  {
    if t != "" {
      WithoutDotsFacts(t[1..]);
      assert t == [t[0]] + t[1..];
    }
  }

  lemma MatchesSingle(a: Atom, more: seq<Atom>, c: char, text: string, caps: seq<string>)
    requires IsSingle(a) && Takes(a, c) && Matches(more, text, caps)
    ensures Matches([a] + more, [c] + text, caps)
  {
    assert ([a] + more)[1..] == more && ([c] + text)[1..] == text;
  }

  lemma {:induction false} DotsMatch(t: string, more: seq<Atom>, text: string, caps: seq<string>)
    requires IsLiteralText(t) && Matches(more, text, caps)
    ensures Matches(Chars(t) + more, WithoutDots(t) + text, caps)
  {
    if t == "" {
      assert Chars(t) + more == more && WithoutDots(t) + text == text;
    } else {
      var c, rest := if t[0] == '.' then '_' else t[0], t[1..];
      DotsMatch(rest, more, text, caps);
      MatchesSingle(CharAtom(t[0]), Chars(rest) + more, c, WithoutDots(rest) + text, caps);
      hide Matches;
      Assoc([CharAtom(t[0])], Chars(rest), more);
      Assoc([c], WithoutDots(rest), text);
    }
  }

  lemma SampleLevelMatches(l: Level, more: seq<Atom>, text: string, caps: seq<string>)
    requires IsLevel(l) && Matches(more, text, caps)
    ensures Matches(LevelAtoms(l) + more, SampleText(l) + text, (if l.Literal? then [] else ["x"]) + caps)
  {
    if l.Literal? {
      DotsMatch(l.text, more, text, caps);
      assert [] + caps == caps;
    } else {
      var all := ["x"] + caps;
      assert (LevelAtoms(l) + more)[1..] == more && all[1..] == caps && all[0] == "x";
      assert ("x" + text)[1..] == text && "x" <= "x" + text;
      assert Accepts(LevelAtoms(l)[0], 'x');
    }
  }

  lemma {:induction false} SampleMatches(levels: seq<Level>)
    requires WellFormed(levels)
    ensures Matches(Atoms(levels), Join(Sample(levels), '/'), SampleCaptures(levels))
  {
    hide IsLevel, LevelAtoms, SampleText;
    var l, caps := levels[0], SampleCaptures(levels[1..]);
    if |levels| == 1 {
      assert Matches([], "", []);
      SampleLevelMatches(l, [], "", []);
      assert LevelAtoms(l) + [] == LevelAtoms(l) && SampleText(l) + "" == SampleText(l);
    } else {
      SampleMatches(levels[1..]);
      var rest, text := Atoms(levels[1..]), Join(Sample(levels[1..]), '/');
      assert ([Chr('/')] + rest)[1..] == rest && ("/" + text)[1..] == text;
      assert Matches([Chr('/')] + rest, "/" + text, caps);
      SampleLevelMatches(l, [Chr('/')] + rest, "/" + text, caps);
      assert Sample(levels)[1..] == Sample(levels[1..]);
      assert SampleText(l) + "/" + text == SampleText(l) + ("/" + text);
    }
  }

  lemma {:induction false} SampleFacts(levels: seq<Level>)
    requires forall i :: 0 <= i < |levels| ==> IsLevel(levels[i])
    requires forall i :: 0 <= i < |levels| - 1 ==> levels[i] != Hash
    ensures forall i :: 0 <= i < |levels| ==> '/' !in Sample(levels)[i] && '\n' !in Sample(levels)[i]
    ensures FilterMatches(levels, Sample(levels)) <==> Undotted(levels)
  {
    if levels != [] {
      SampleFacts(levels[1..]);
      assert Sample(levels)[1..] == Sample(levels[1..]);
      if levels[0].Literal? {
        WithoutDotsFacts(levels[0].text);
      }
      assert Undotted(levels) <==> (levels[0].Literal? ==> '.' !in levels[0].text) && Undotted(levels[1..]);
    }
  }

  lemma {:induction false} JoinWithoutNewline(parts: seq<string>)
    requires parts != [] && forall i :: 0 <= i < |parts| ==> '\n' !in parts[i]
    ensures '\n' !in Join(parts, '/')
  {
    if |parts| > 1 {
      JoinWithoutNewline(parts[1..]);
    }
  }

  /** A pattern with a dot in a literal level routes a topic that its filter does not match. */
  lemma DotRoutesMore(levels: seq<Level>)
    requires WellFormed(levels) && !Undotted(levels)
    ensures var topic := Join(Sample(levels), '/');
      '\n' !in topic && Search(Atoms(levels), topic).Some? && !Subscribes(levels, topic)
  {
    var parts, topic := Sample(levels), Join(Sample(levels), '/');
    SampleFacts(levels);
    JoinWithoutNewline(parts);
    SplitOfJoin(parts, '/');
    SampleMatches(levels);
    hide Matches, Search, Atoms, Sample, SampleCaptures, FilterMatches;
    assert AnchoredMatch(Atoms(levels), topic, SampleCaptures(levels));
    SearchFindsMatches(Atoms(levels), topic);
  }

  /**
   * With a literal first level, all newline-free topics a pattern routes are matches of the standard's
   * filter if and only if no literal level holds a dot, which the translation does not escape.
   */
  lemma RoutesOnlySubscriptionsIff(levels: seq<Level>)
    requires WellFormed(levels) && levels[0].Literal?
    ensures (forall topic :: '\n' !in topic && Search(Atoms(levels), topic).Some? ==> Subscribes(levels, topic))
       <==> Undotted(levels)
  {
    hide Search, Atoms, Subscribes, Undotted;
    if Undotted(levels) {
      forall topic | '\n' !in topic && Search(Atoms(levels), topic).Some?
        ensures Subscribes(levels, topic)
      {
        RouterMatchIsSubscription(levels, topic);
      }
    } else {
      DotRoutesMore(levels);
    }
  }

  lemma SearchOverSlash()
    ensures Search([Chr('a'), AnyChar, Chr('b')], "a/b") == Some([])
  {
    assert [Chr('a'), AnyChar, Chr('b')][1..] == [AnyChar, Chr('b')] && "a/b"[1..] == "/b";
    assert [AnyChar, Chr('b')][1..] == [Chr('b')] && "/b"[1..] == "b";
    assert [Chr('b')][1..] == [] && "b"[1..] == "";
    assert Search([Chr('b')], "b") == Some([]);
    assert Search([AnyChar, Chr('b')], "/b") == Some([]);
  }

  lemma CharsWithDot()
    ensures Chars("a.b") == [Chr('a'), AnyChar, Chr('b')]
  {
    assert "a.b"[1..] == ".b" && ".b"[1..] == "b" && "b"[1..] == "";
  }

  /** The dot even stands for the slash between levels. */
  lemma DotMatchesSlash()
    ensures var levels := [Literal("a.b")];
      WellFormed(levels) && Search(Atoms(levels), "a/b") == Some([]) && !Subscribes(levels, "a/b")
  {
    CharsWithDot();
    SearchOverSlash();
    hide Chars, Search, Split;
    SplitOfFree("b", '/');
    SplitAtFirst("a", "b", '/');
    assert "a" + "/" + "b" == "a/b";
  }

  /** With a wildcard first level the router also routes topics that start with `$`; the standard's filter never matches them. */
  lemma DollarTopics(levels: seq<Level>, topic: string)
    requires WellFormed(levels) && !levels[0].Literal? && topic != "" && topic[0] == '$'
    ensures !Subscribes(levels, topic)
    ensures levels == [Hash] && '\n' !in topic ==> Search(Atoms(levels), topic) == Some([topic])
  {
    if levels == [Hash] && '\n' !in topic {
      JoinOfSplit(topic, '/');
      SearchIsLevelMatch(levels, topic);
    }
  }

  lemma LowerCaseIsPlain(t: string)
    requires forall i :: 0 <= i < |t| ==> 'a' <= t[i] <= 'z'
    ensures IsLevel(Literal(t)) && '.' !in t
  {
  }

  /** The patterns the module itself registers are among those covered. */
  lemma RegisteredPatterns()
    ensures var levels := [Literal("sensorhub"), Literal("sensors"), Name("sensor_id"), Literal("readings")];
      WellFormed(levels) && Undotted(levels) && PatternText(levels) == "sensorhub/sensors/{sensor_id}/readings"
    ensures var levels := [Literal("sensorhub"), Literal("system"), Hash];
      WellFormed(levels) && Undotted(levels) && PatternText(levels) == "sensorhub/system/#"
  {
    RegisteredLevels();
    hide *;
    RegisteredTexts();
  }

  lemma RegisteredLevels()
    ensures var levels := [Literal("sensorhub"), Literal("sensors"), Name("sensor_id"), Literal("readings")];
      WellFormed(levels) && Undotted(levels)
    ensures var levels := [Literal("sensorhub"), Literal("system"), Hash];
      WellFormed(levels) && Undotted(levels)
  {
    LowerCaseIsPlain("sensorhub");
    LowerCaseIsPlain("sensors");
    LowerCaseIsPlain("readings");
    LowerCaseIsPlain("system");
    assert IsLevel(Name("sensor_id"));
    hide IsLevel;
  }

  lemma RegisteredTexts()
    ensures PatternText([Literal("sensorhub"), Literal("sensors"), Name("sensor_id"), Literal("readings")])
         == "sensorhub/sensors/{sensor_id}/readings"
    ensures PatternText([Literal("sensorhub"), Literal("system"), Hash]) == "sensorhub/system/#"
  {
    TextOfFour(Literal("sensorhub"), Literal("sensors"), Name("sensor_id"), Literal("readings"));
    TextOfThree(Literal("sensorhub"), Literal("system"), Hash);
    hide PatternText;
  }

  lemma TextOfFour(a: Level, b: Level, c: Level, d: Level)
    ensures PatternText([a, b, c, d]) == LevelText(a) + "/" + PatternText([b, c, d])
    ensures PatternText([b, c, d]) == LevelText(b) + "/" + (LevelText(c) + "/" + LevelText(d))
  {
    assert [a, b, c, d][1..] == [b, c, d];
    TextOfThree(b, c, d);
  }

  lemma TextOfThree(a: Level, b: Level, c: Level)
    ensures PatternText([a, b, c]) == LevelText(a) + "/" + (LevelText(b) + "/" + LevelText(c))
  {
    assert [a, b, c][1..] == [b, c] && [b, c][1..] == [c];
    assert PatternText([c]) == LevelText(c);
    assert PatternText([b, c]) == LevelText(b) + "/" + PatternText([c]);
  }

  /** The dot does not stand for a newline. */
  lemma DotSkipsNewline()
    ensures Search(Atoms([Literal("a.b")]), "a\nb") == None
  {
    CharsWithDot();
    SearchOverNewline();
    hide Chars, Search;
  }

  lemma SearchOverNewline()
    ensures Search([Chr('a'), AnyChar, Chr('b')], "a\nb") == None
  {
    assert [Chr('a'), AnyChar, Chr('b')][1..] == [AnyChar, Chr('b')] && "a\nb"[1..] == "\nb";
  }

  /** A name may not start with a digit: the expression for `{7}` does not compile; one for `{_7}` may. */
  lemma DigitNames(n: string)
    requires n != "" && forall i :: 0 <= i < |n| ==> '0' <= n[i] <= '9'
    ensures Compile(RegexText("{" + n + "}")) == None
    ensures IsLevel(Name("_" + n))
  {
    var text, pattern := "{" + n + "}", NamedGroup(n);
    ReplaceAbsent(text, '+', SegmentGroup());
    ReplaceAbsent(text, '#', RemainderGroup());
    SubNamesOfName(n, "");
    assert text + "" == text && pattern + "" == pattern;
    assert SubNames(text) == pattern by { SubNamesOfNothing(); }
    DigitsDoNotParse(n);
    var regex := "^" + pattern + "$";
    assert regex[1..|regex| - 1] == pattern;
  }

  lemma DigitsDoNotParse(n: string)
    requires n != "" && forall i :: 0 <= i < |n| ==> '0' <= n[i] <= '9'
    ensures Parse(NamedGroup(n)) == None
  {
    var tail := ">[^/]+)";
    var inner := "?P<" + n + tail;
    assert NamedGroup(n) == "(" + inner;
    assert inner[0] == '?' && inner[1] == 'P' && inner[2] == '<' && inner[3..] == n + tail;
    WordRunOf(n, tail);
    assert inner[3..3 + |n|] == n;
    assert ReadGroup(inner) == None;
  }
}
