/** The MQTT router: registered patterns and first-match dispatch. */
module MqttRouting {
  import opened Wrappers
  import opened Splitting
  import opened MqttPatterns

  /** Handlers are known by number. */
  datatype Route = Route(pattern: string, regex: seq<Atom>, handler: nat)

  /** `match.groupdict()`: the captures of the named groups. */
  function GroupDict(atoms: seq<Atom>, caps: seq<string>): map<string, string> {
    if atoms == [] then map[]
    else if IsSingle(atoms[0]) then GroupDict(atoms[1..], caps)
    else if caps == [] then map[]
    else
      var rest := GroupDict(atoms[1..], caps[1..]);
      if atoms[0].name.Some? then rest[atoms[0].name.value := caps[0]] else rest
  }

  /** Each name of a pattern bound to the topic level it stands for. */
  function Bindings(levels: seq<Level>, parts: seq<string>): map<string, string> {
    if levels == [] || parts == [] then map[]
    else
      var rest := Bindings(levels[1..], parts[1..]);
      if levels[0].Name? then rest[levels[0].name := parts[0]] else rest
  }

  lemma SkipSingle(a: Atom, more: seq<Atom>, caps: seq<string>)
    requires IsSingle(a)
    ensures GroupDict([a] + more, caps) == GroupDict(more, caps)
  {
    assert ([a] + more)[1..] == more;
  }

  lemma {:induction false} SkipChars(t: string, atoms: seq<Atom>, caps: seq<string>)
    ensures GroupDict(Chars(t) + atoms, caps) == GroupDict(atoms, caps)
  {
    if t == "" {
      assert Chars(t) + atoms == atoms;
    } else {
      var rest := Chars(t[1..]);
      SkipChars(t[1..], atoms, caps);
      hide GroupDict;
      SkipSingle(CharAtom(t[0]), rest + atoms, caps);
      assert Chars(t) == [CharAtom(t[0])] + rest;
      hide Chars;
      assert Chars(t) + atoms == [CharAtom(t[0])] + (rest + atoms);
    }
  }

  lemma GroupDictOfLevel(l: Level, more: seq<Atom>, caps: seq<string>)
    requires !l.Literal? ==> caps != []
    ensures GroupDict(LevelAtoms(l) + more, caps)
         == if l.Literal? then GroupDict(more, caps)
            else if l.Name? then GroupDict(more, caps[1..])[l.name := caps[0]]
            else GroupDict(more, caps[1..])
  {
    if l.Literal? {
      SkipChars(l.text, more, caps);
    } else {
      assert (LevelAtoms(l) + more)[1..] == more;
    }
  }

  /** When the levels match, the handler's named arguments are the topic levels at the names' places. */
  lemma {:induction false} GroupDictIsBindings(levels: seq<Level>, parts: seq<string>)
    requires levels != [] && Capture(levels, parts).Some?
    ensures GroupDict(Atoms(levels), Capture(levels, parts).value) == Bindings(levels, parts)
  {
    hide LevelAtoms, GroupDict;
    var l, caps := levels[0], Capture(levels, parts).value;
    var tail := if l.Literal? then caps else caps[1..];
    if |levels| == 1 {
      GroupDictOfLevel(l, [], caps);
      assert LevelAtoms(l) + [] == LevelAtoms(l);
      GroupDictOfNothing(tail);
    } else {
      GroupDictIsBindings(levels[1..], parts[1..]);
      assert Capture(levels[1..], parts[1..]) == Some(tail);
      GroupDictOfLevel(l, [Chr('/')] + Atoms(levels[1..]), caps);
      SlashHasNoName(Atoms(levels[1..]), tail);
    }
  }

  lemma GroupDictOfNothing(caps: seq<string>)
    ensures GroupDict([], caps) == map[]
  {
  }

  lemma SlashHasNoName(atoms: seq<Atom>, caps: seq<string>)
    ensures GroupDict([Chr('/')] + atoms, caps) == GroupDict(atoms, caps)
  {
    assert ([Chr('/')] + atoms)[1..] == atoms;
  }

  /** Each name is bound to the topic level at its place in the pattern, and nothing else is bound. */
  lemma {:induction false} BindingsExactly(levels: seq<Level>, parts: seq<string>)
    requires Capture(levels, parts).Some? && Distinct(NamesOf(levels))
    ensures forall n :: n in Bindings(levels, parts) <==> Name(n) in levels
    ensures forall i :: 0 <= i < |levels| && levels[i].Name? ==>
      i < |parts| && Bindings(levels, parts)[levels[i].name] == parts[i]
  {
    NamesClashIff(levels);
    if levels != [] {
      var rest := levels[1..];
      assert levels == [levels[0]] + rest;
      if parts != [] && (levels[0] != Hash || rest == []) {
        if rest == [] {
          assert Bindings(rest, parts[1..]) == map[];
        } else {
          NamesClashIff(rest);
          assert forall i :: 0 <= i < |rest| ==> rest[i] == levels[i + 1];
          BindingsExactly(rest, parts[1..]);
          assert forall i :: 1 <= i < |levels| ==> levels[i] == rest[i - 1];
        }
      }
    }
  }

  class MqttRouter {
    var routes: seq<Route>
    /** The levels of each registered pattern. */
    ghost var levels: seq<seq<Level>>

    ghost predicate Valid()
      reads this
    {
      && |routes| == |levels|
      && forall i :: 0 <= i < |routes| ==>
        && levels[i] != [] && WellFormed(levels[i])
        && routes[i].pattern == PatternText(levels[i]) && routes[i].regex == Atoms(levels[i])
    }

    constructor ()
      ensures Valid() && routes == [] && levels == []
    {
      routes, levels := [], [];
    }

    /** Registers a handler; a name used twice makes the compilation raise, and nothing is registered. */
    method Register(pattern: string, handler: nat, ghost patternLevels: seq<Level>) returns (registered: bool)
      requires Valid() && WellFormed(patternLevels) && pattern == PatternText(patternLevels)
      modifies this
      ensures Valid()
      ensures registered
        <==> forall i, j :: 0 <= i < j < |patternLevels| && patternLevels[i].Name? ==> patternLevels[i] != patternLevels[j]
      ensures registered ==>
        levels == old(levels) + [patternLevels] && |routes| == |old(routes)| + 1 && old(routes) <= routes
        && routes[|old(routes)|].pattern == pattern && routes[|old(routes)|].handler == handler
      ensures !registered ==> routes == old(routes) && levels == old(levels)
    {
      PatternCompiles(patternLevels);
      NamesClashIff(patternLevels);
      var compiled := Compile(RegexText(pattern));
      if compiled.None? {
        return false;
      }
      routes := routes + [Route(pattern, compiled.value, handler)];
      levels := levels + [patternLevels];
      return true;
    }

    /**
     * Hands the topic to the first route that matches it, with what the names of the greediest match
     * capture as arguments; no later route is tried, not even when that handler raises. Without dots
     * in the pattern those are the topic levels at the names' places.
     */
    method Dispatch(topic: string, raises: (nat, map<string, string>) -> bool)
      returns (handled: bool, called: Option<nat>, arguments: map<string, string>)
      requires Valid()
      ensures called.None? <==> forall i :: 0 <= i < |levels| ==> !Routes(levels[i], topic)
      ensures called.Some? ==>
        && called.value < |routes|
        && Routes(levels[called.value], topic)
        && (forall i :: 0 <= i < called.value ==> !Routes(levels[i], topic))
        && (exists caps :: IsGreediest(levels[called.value], topic, caps)
              && arguments == GroupDict(routes[called.value].regex, caps))
        && (Undotted(levels[called.value]) ==>
              arguments == Bindings(levels[called.value], RoutedParts(levels[called.value], topic)))
      ensures handled == (called.Some? && !raises(routes[called.value].handler, arguments))
    {
      hide WellFormed, PatternText, Atoms, Search, Routes, IsGreediest, Undotted, RoutedParts;
      for i := 0 to |routes|
        invariant forall k :: 0 <= k < i ==> !Routes(levels[k], topic)
      {
        SearchDecides(levels[i], topic);
        var found := Search(routes[i].regex, topic);
        if found.Some? {
          arguments := GroupDict(routes[i].regex, found.value);
          return !raises(routes[i].handler, arguments), Some(i), arguments;
        }
      }
      return false, None, map[];
    }
  }

  /** The pattern's expression matches the topic. */
  ghost predicate Routes(levels: seq<Level>, topic: string)
    requires levels != []
  {
    exists caps :: AnchoredMatch(Atoms(levels), topic, caps)
  }

  /** Of all matches, these captures took the longer text at the first group where another differs. */
  ghost predicate IsGreediest(levels: seq<Level>, topic: string, caps: seq<string>)
    requires levels != []
  {
    AnchoredMatch(Atoms(levels), topic, caps)
    && forall others :: AnchoredMatch(Atoms(levels), topic, others) ==> Greedier(caps, others)
  }

  /** A pattern without dots routes a topic exactly when the levels match one by one. */
  lemma RoutesByLevels(levels: seq<Level>, topic: string)
    requires WellFormed(levels) && Undotted(levels)
    ensures Routes(levels, topic) <==> Capture(levels, RoutedParts(levels, topic)).Some?
  {
    SearchFindsMatches(Atoms(levels), topic);
    SearchIsLevelMatch(levels, topic);
  }

  /** The search tells whether the pattern routes the topic, and what the handler is given. */
  lemma SearchDecides(levels: seq<Level>, topic: string)
    requires WellFormed(levels)
    ensures var found := Search(Atoms(levels), topic);
      && (found.Some? <==> Routes(levels, topic))
      && (found.Some? ==> IsGreediest(levels, topic, found.value))
      && (found.Some? && Undotted(levels) ==>
            GroupDict(Atoms(levels), found.value) == Bindings(levels, RoutedParts(levels, topic)))
  {
    hide Atoms, Search, RoutedParts, Undotted, Capture;
    SearchFindsMatches(Atoms(levels), topic);
    if Undotted(levels) && Search(Atoms(levels), topic).Some? {
      SearchIsLevelMatch(levels, topic);
      GroupDictIsBindings(levels, RoutedParts(levels, topic));
    }
  }
}
