/**
 The token level of the configuration parser (loader/config.c): which slots a token stream
 emplaces, and that printing a tree as tokens and parsing it back gives the tree.
 */
module ConfigParser {
  import opened Arith
  import opened ConfigTree

  /** A fetched token; an indentation carries its level, at least 1. The end of the stream is the end-of-file token. */
  datatype Token = Str(s: string) | Indent(level: nat) | Section(name: string) | Equ | Colon

  /** What fetching guarantees: an indentation has a level and swallows all white space. */
  ghost predicate Fetched(t: seq<Token>) {
    && (forall k: nat :: k < |t| && t[k].Indent? ==> t[k].level >= 1)
    && (forall k: nat :: k + 1 < |t| && t[k].Indent? ==> !t[k + 1].Indent?)
  }

  datatype Prev = Start | Indented | AfterColon | AfterValue

  /** Between lists of entries, or inside one at some depth after some token. */
  datatype Mode = Top(mustBeIdent: bool) | In(depth: nat, prev: Prev)

  /** `Overrun` is a value at a depth the depth table does not have. */
  datatype Outcome = Parsed(slots: seq<Slot>) | Rejected | Overrun

  function Then(done: seq<Slot>, o: Outcome): Outcome {
    if o.Parsed? then Parsed(done + o.slots) else o
  }

  function BaseDepth(inSection: bool): nat {
    if inSection then 1 else 0
  }

  /** The slots `cfg_parse` emplaces for a token stream. */
  function Parse(t: seq<Token>, m: Mode, inSection: bool, classify: string -> Kind): Outcome
    decreases |t|, if m.Top? <==> t != [] && t[0].Str? then 1 else 0
  {
    match m
    case Top(must) =>
      if t == [] then (if must then Rejected else Parsed([]))
      else if t[0].Str? then Parse(t, In(BaseDepth(inSection), Start), inSection, classify)
      else if t[0].Section? && !must then
        Then([Slot(0, Loadable(t[0].name))], Parse(t[1..], Top(true), true, classify))
      else Rejected
    case In(depth, prev) =>
      if prev.AfterColon? && !(t != [] && t[0] == Indent(depth)) then Rejected
      else if t == [] || t[0].Section? then Parse(t, Top(false), inSection, classify)
      else if t[0].Indent? then
        if t[0].level > depth then Rejected else Parse(t[1..], In(t[0].level, Indented), inSection, classify)
      else
        var d := if prev.Indented? then depth else BaseDepth(inSection);
        if !t[0].Str? || |t| < 2 then Rejected
        else if t[1].Colon? then
          if d >= MAX_DEPTH then Rejected
          else Then([Slot(d, Value(t[0].s, Object, ""))], Parse(t[2..], In(d + 1, AfterColon), inSection, classify))
        else if t[1].Equ? && |t| > 2 && t[2].Str? then
          if d >= MAX_DEPTH then Overrun
          else Then([Slot(d, Value(t[0].s, classify(t[2].s), t[2].s))],
                    Parse(t[3..], In(d, AfterValue), inSection, classify))
        else Rejected
  }

  /**
   The stream spells these slots one after the other: each value behind an indentation of its depth, or without one at
   the depth where its list starts, as key and colon or as key, equality sign and text; each section by its name.
   */
  ghost predicate Spells(t: seq<Token>, slots: seq<Slot>, inSection: bool, lead: Option<nat>, classify: string -> Kind)
    decreases |t|
  {
    if t == [] then slots == []
    else if t[0].Indent? then Spells(t[1..], slots, inSection, Some(t[0].level), classify)
    else if slots == [] then false
    else if t[0].Section? then
      slots[0] == Slot(0, Loadable(t[0].name)) && Spells(t[1..], slots[1..], true, None, classify)
    else
      && t[0].Str? && |t| >= 2
      && slots[0].depth == (if lead.Some? then lead.value else if inSection then 1 else 0)
      && if t[1].Colon? then
           slots[0].item == Value(t[0].s, Object, "") && Spells(t[2..], slots[1..], inSection, None, classify)
         else
           && |t| > 2 && t[1].Equ? && t[2].Str?
           && slots[0].item == Value(t[0].s, classify(t[2].s), t[2].s)
           && Spells(t[3..], slots[1..], inSection, None, classify)
  }

  /** Nothing of an accepted stream is lost, moved or made up. */
  lemma {:induction false} ParsedSpells(t: seq<Token>, m: Mode, inSection: bool, classify: string -> Kind)
    ensures var o := Parse(t, m, inSection, classify);
            o.Parsed? ==>
              Spells(t, o.slots, inSection, if m.In? && m.prev.Indented? then Some(m.depth) else None, classify)
    decreases |t|, if m.Top? <==> t != [] && t[0].Str? then 1 else 0
  {
    match m
    case Top(must) =>
      if t != [] && t[0].Str? {
        ParsedSpells(t, In(BaseDepth(inSection), Start), inSection, classify);
      } else if t != [] && t[0].Section? && !must {
        ParsedSpells(t[1..], Top(true), true, classify);
      }
    case In(depth, prev) =>
      if t == [] || t[0].Section? {
        ParsedSpells(t, Top(false), inSection, classify);
      } else if t[0].Indent? {
        ParsedSpells(t[1..], In(t[0].level, Indented), inSection, classify);
      } else if t[0].Str? && |t| >= 2 {
        var d := if prev.Indented? then depth else BaseDepth(inSection);
        if t[1].Colon? {
          ParsedSpells(t[2..], In(d + 1, AfterColon), inSection, classify);
        } else if |t| > 2 {
          ParsedSpells(t[3..], In(d, AfterValue), inSection, classify);
        }
      }
  }

  // ----- The parser -----

  datatype Status = Fine | Error | OutOfTable

  /** Where the parser stands: what was emplaced last, and the depth it expects. */
  ghost predicate Stands(ss: seq<Slot>, m: Mode, inSection: bool, t: seq<Token>) {
    && (inSection ==> ss != [])
    && match m
       case Top(must) =>
         if must then inSection && ss[|ss| - 1].item.Loadable? && ss[|ss| - 1].depth == 0
         else ss == [] || t == [] || t[0].Section?
       case In(depth, prev) =>
         if prev.Start? then
           t != [] && t[0].Str?
           && (if inSection then ss[|ss| - 1].item.Loadable? && ss[|ss| - 1].depth == 0 else ss == [])
         else ss != [] && InList(ss[|ss| - 1], depth, prev, inSection, t)
  }

  ghost predicate InList(last: Slot, depth: nat, prev: Prev, inSection: bool, t: seq<Token>) {
    && last.item.Value? && last.depth >= BaseDepth(inSection)
    && match prev
       case Start => false
       case AfterColon => last.item.kind.Object? && depth == last.depth + 1
       case AfterValue => !last.item.kind.Object? && depth == last.depth
       case Indented => depth >= 1 && (if last.item.kind.Object? then depth == last.depth + 1 else depth <= last.depth)
                        && (t != [] ==> !t[0].Indent?)
  }

  class Parser {
    const tokens: seq<Token>
    const classify: string -> Kind
    const cfg: Config
    var pos: nat
    var inSection: bool

    ghost predicate Valid()
      reads this, cfg, cfg.table
    {
      && cfg.Valid() && pos <= |tokens| && Fetched(tokens) && (forall s :: classify(s) != Object)
      && (inSection <==> cfg.firstLoadable > 0)
    }

    /** The whole stream means what was emplaced so far and what the rest means from here. */
    ghost predicate On(m: Mode)
      requires pos <= |tokens|
      reads this, cfg
    {
      && Stands(cfg.slots, m, inSection, tokens[pos..])
      && Parse(tokens, Top(false), false, classify) == Then(cfg.slots, Parse(tokens[pos..], m, inSection, classify))
    }

    constructor (tokens: seq<Token>, classify: string -> Kind)
      requires Fetched(tokens) && forall s :: classify(s) != Object
      ensures Valid() && On(Top(false)) && fresh(cfg) && fresh(cfg.table)
      ensures this.tokens == tokens && this.classify == classify
    {
      this.tokens, this.classify, pos, inSection := tokens, classify, 0, false;
      cfg := new Config();
      new;
      assert tokens[0..] == tokens;
      Nothing(Parse(tokens, Top(false), false, classify));
    }

    /** Emplaces an entry and moves past its tokens. */
    method Take(item: Item, depth: nat, used: nat, ghost m: Mode, ghost m': Mode)
      requires Valid() && On(m) && pos + used <= |tokens| && depth < MAX_DEPTH
      requires MayFollow(cfg.slots, Slot(depth, item), inSection)
      requires Parse(tokens[pos..], m, inSection, classify)
            == Then([Slot(depth, item)], Parse(tokens[pos..][used..], m', inSection || item.Loadable?, classify))
      requires Stands(cfg.slots + [Slot(depth, item)], m', inSection || item.Loadable?, tokens[pos..][used..])
      modifies this, cfg, cfg.table
      ensures Valid() && On(m') && pos == old(pos) + used
    {
      hide Parse, Stands, MayFollow, Config.Valid, Fetched;
      ghost var ss := cfg.slots;
      cfg.Emplace(item, depth);
      inSection := inSection || item.Loadable?;
      assert tokens[pos..][used..] == tokens[pos + used..];
      ThenThen(ss, [Slot(depth, item)], Parse(tokens[pos + used..], m', inSection, classify));
      pos := pos + used;
    }

    ghost predicate Whole(o: Outcome)
      reads this
    {
      Parse(tokens, Top(false), false, classify) == o
    }

    /** One `key:` or `key = value` at depth `d`. */
    method TakeEntry(depth: nat, prev: Prev) returns (st: Status, depth': nat, prev': Prev)
      requires Valid() && On(In(depth, prev)) && !prev.AfterColon?
      requires pos < |tokens| && !tokens[pos].Indent? && !tokens[pos].Section?
      modifies this, cfg, cfg.table
      ensures st.Fine? ==> Valid() && On(In(depth', prev')) && old(pos) < pos <= |tokens|
      ensures st.Error? ==> Whole(Rejected)
      ensures st.OutOfTable? ==> Whole(Overrun)
    {
      hide Stands, MayFollow, Config.Valid, Fetched;
      ghost var t, m := tokens[pos..], In(depth, prev);
      var d := EntryDepth(depth, prev, inSection);
      depth', prev' := d, AfterValue;
      if !tokens[pos].Str? || pos + 1 == |tokens| {
        return Error, depth', prev';
      }
      var key := tokens[pos].s;
      if tokens[pos + 1].Colon? {
        if d >= MAX_DEPTH {
          return Error, depth', prev';
        }
        EntryStands(cfg.slots, depth, prev, inSection, t, Value(key, Object, ""), t[2..]);
        Take(Value(key, Object, ""), d, 2, m, In(d + 1, AfterColon));
        return Fine, d + 1, AfterColon;
      }
      if !tokens[pos + 1].Equ? || pos + 2 == |tokens| || !tokens[pos + 2].Str? {
        return Error, depth', prev';
      }
      if d >= MAX_DEPTH {
        return OutOfTable, depth', prev';
      }
      var item := Value(key, classify(tokens[pos + 2].s), tokens[pos + 2].s);
      EntryStands(cfg.slots, depth, prev, inSection, t, item, t[3..]);
      Take(item, d, 3, m, In(d, AfterValue));
      st := Fine;
    }

    /** `cfg_parse_objects`: a list of entries, up to a section or the end. */
    method ParseObjects() returns (st: Status)
      requires Valid() && On(In(BaseDepth(inSection), Start))
      modifies this, cfg, cfg.table
      ensures st.Fine? ==> Valid() && On(Top(false)) && pos > old(pos)
      ensures st.Error? ==> Whole(Rejected)
      ensures st.OutOfTable? ==> Whole(Overrun)
    {
      hide Stands, MayFollow, Config.Valid;
      var depth: nat, prev := BaseDepth(inSection), Start;
      StartsAtString(cfg.slots, depth, inSection, tokens[pos..]);
      while true
        invariant Valid() && On(In(depth, prev))
        invariant pos >= old(pos) && (pos == old(pos) ==> tokens[pos..] != [] && tokens[pos].Str?)
        decreases |tokens| - pos
      {
        ghost var t := tokens[pos..];
        if prev.AfterColon? && !(pos < |tokens| && tokens[pos] == Indent(depth)) {
          return Error;
        }
        if pos == |tokens| || tokens[pos].Section? {
          ListEnds(cfg.slots, depth, prev, inSection, t);
          return Fine;
        }
        if tokens[pos].Indent? {
          if tokens[pos].level > depth {
            return Error;
          }
          IndentStands(cfg.slots, depth, prev, inSection, t);
          depth, prev := tokens[pos].level, Indented;
          assert tokens[pos..][1..] == tokens[pos + 1..];
          pos := pos + 1;
        } else {
          st, depth, prev := TakeEntry(depth, prev);
          if !st.Fine? {
            return;
          }
        }
      }
    }

    /** `cfg_parse`: accepts exactly the streams the grammar accepts, and emplaces exactly their slots. */
    method ParseConfig() returns (st: Status)
      requires Valid() && On(Top(false))
      modifies this, cfg, cfg.table
      ensures st.Fine? ==> Valid() && Whole(Parsed(cfg.slots)) && Spells(tokens, cfg.slots, false, None, classify)
      ensures st.Error? ==> Whole(Rejected)
      ensures st.OutOfTable? ==> Whole(Overrun)
    {
      hide Stands, MayFollow, Config.Valid, Fetched, Spells;
      ParsedSpells(tokens, Top(false), false, classify);
      var must := false;
      while true
        invariant Valid() && On(Top(must))
        decreases |tokens| - pos
      {
        ghost var t := tokens[pos..];
        if pos == |tokens| {
          if must {
            return Error;
          }
          assert Then(cfg.slots, Parsed([])) == Parsed(cfg.slots);
          return Fine;
        }
        match tokens[pos] {
          case Str(_) =>
            must := false;
            ObjectsStart(cfg.slots, inSection, t);
            st := ParseObjects();
            if !st.Fine? {
              return;
            }
          case Section(name) =>
            if must {
              return Error;
            }
            SectionStands(cfg.slots, inSection, t, name);
            Take(Loadable(name), 0, 1, Top(false), Top(true));
            must := true;
          case _ =>
            return Error;
        }
      }
    }
  }

  function EntryDepth(depth: nat, prev: Prev, inSection: bool): nat {
    if prev.Indented? then depth else BaseDepth(inSection)
  }

  lemma EntryStands(ss: seq<Slot>, depth: nat, prev: Prev, inSection: bool, t: seq<Token>, item: Item, t': seq<Token>)
    requires Stands(ss, In(depth, prev), inSection, t) && !prev.AfterColon? && item.Value?
    requires EntryDepth(depth, prev, inSection) < MAX_DEPTH
    ensures var d := EntryDepth(depth, prev, inSection);
            && MayFollow(ss, Slot(d, item), inSection)
            && Stands(ss + [Slot(d, item)], if item.kind.Object? then In(d + 1, AfterColon) else In(d, AfterValue),
                      inSection, t')
  {
  }

  lemma StartsAtString(ss: seq<Slot>, depth: nat, inSection: bool, t: seq<Token>)
    requires Stands(ss, In(depth, Start), inSection, t)
    ensures t != [] && t[0].Str?
  {
  }

  lemma ListEnds(ss: seq<Slot>, depth: nat, prev: Prev, inSection: bool, t: seq<Token>)
    requires Stands(ss, In(depth, prev), inSection, t) && (t == [] || t[0].Section?)
    ensures Stands(ss, Top(false), inSection, t)
  {
  }

  lemma IndentStands(ss: seq<Slot>, depth: nat, prev: Prev, inSection: bool, t: seq<Token>)
    requires Stands(ss, In(depth, prev), inSection, t) && t != [] && t[0].Indent? && 1 <= t[0].level <= depth
    requires prev.AfterColon? ==> t[0].level == depth
    requires |t| > 1 ==> !t[1].Indent?
    ensures Stands(ss, In(t[0].level, Indented), inSection, t[1..])
  {
  }

  lemma ObjectsStart(ss: seq<Slot>, inSection: bool, t: seq<Token>)
    requires exists must :: Stands(ss, Top(must), inSection, t)
    requires t != [] && t[0].Str?
    ensures Stands(ss, In(BaseDepth(inSection), Start), inSection, t)
  {
  }

  lemma SectionStands(ss: seq<Slot>, inSection: bool, t: seq<Token>, name: string)
    requires Stands(ss, Top(false), inSection, t) && t != [] && t[0].Section?
    ensures MayFollow(ss, Slot(0, Loadable(name)), inSection)
    ensures Stands(ss + [Slot(0, Loadable(name))], Top(true), true, t[1..])
  {
  }

  lemma Nothing(o: Outcome)
    ensures Then([], o) == o
  {
  }

  lemma ThenThen(a: seq<Slot>, b: seq<Slot>, o: Outcome)
    ensures Then(a, Then(b, o)) == Then(a + b, o)
  {
    if o.Parsed? { assert a + (b + o.slots) == a + b + o.slots; }
  }

  // ----- Printing a tree as tokens -----

  /** A list of entries the parser can give: every object holds something, every depth is in the table. */
  ghost predicate Printable(f: Forest, depth: nat, classify: string -> Kind) {
    match f
    case Nil => true
    case Cons(item, children, rest) =>
      && item.Value? && depth < MAX_DEPTH
      && (if item.kind.Object?
          then item.text == "" && children.Cons?
          else children.Nil? && item.kind == classify(item.text))
      && Printable(children, depth + 1, classify) && Printable(rest, depth, classify)
  }

  function Lead(depth: nat, base: nat): seq<Token> {
    if depth == base then [] else [Indent(depth)]
  }

  function Head(item: Item): seq<Token>
    requires item.Value?
  {
    if item.kind.Object? then [Str(item.key), Colon] else [Str(item.key), Equ, Str(item.text)]
  }

  function Print(f: Forest, depth: nat, base: nat): seq<Token> {
    match f
    case Nil => []
    case Cons(item, children, rest) =>
      if item.Loadable? then []
      else Lead(depth, base) + Head(item) + Print(children, depth + 1, base) + Print(rest, depth, base)
  }

  /** Where the parser is after a list. */
  function LastDepth(f: Forest, depth: nat): nat
    requires f.Cons?
  {
    if f.rest.Cons? then LastDepth(f.rest, depth)
    else if f.children.Cons? then LastDepth(f.children, depth + 1)
    else depth
  }

  lemma {:induction false} LastDepthBound(f: Forest, depth: nat)
    requires f.Cons?
    ensures LastDepth(f, depth) >= depth
  {
    if f.rest.Cons? {
      LastDepthBound(f.rest, depth);
    } else if f.children.Cons? {
      LastDepthBound(f.children, depth + 1);
    }
  }

  /** A list at `depth` can start here. */
  predicate Enters(m: Mode, depth: nat, base: nat) {
    && m.In? && base <= depth
    && match m.prev
       case Start => depth == base
       case AfterColon => m.depth == depth && base < depth
       case AfterValue => m.depth >= depth
       case Indented => false
  }

  lemma EntryParses(item: Item, depth: nat, inSection: bool, m: Mode, rest: seq<Token>, classify: string -> Kind)
    requires item.Value? && depth < MAX_DEPTH && Enters(m, depth, BaseDepth(inSection))
    requires if item.kind.Object? then item.text == "" else item.kind == classify(item.text)
    ensures Parse(Lead(depth, BaseDepth(inSection)) + Head(item) + rest, m, inSection, classify)
         == Then([Slot(depth, item)],
                 Parse(rest, if item.kind.Object? then In(depth + 1, AfterColon) else In(depth, AfterValue), inSection,
                       classify))
  {
    var base := BaseDepth(inSection);
    var t := Head(item) + rest;
    var m' := if depth == base then m else In(depth, Indented);
    assert Parse(Lead(depth, base) + Head(item) + rest, m, inSection, classify)
        == Parse(t, m', inSection, classify) by {
      if depth == base {
        assert Lead(depth, base) + Head(item) + rest == t;
      } else {
        assert Lead(depth, base) + Head(item) + rest == [Indent(depth)] + t;
        assert ([Indent(depth)] + t)[1..] == t;
      }
    }
    HeadParses(item, depth, inSection, m', rest, classify);
  }

  lemma HeadParses(item: Item, depth: nat, inSection: bool, m: Mode, rest: seq<Token>, classify: string -> Kind)
    requires item.Value? && depth < MAX_DEPTH && m.In? && !m.prev.AfterColon?
    requires depth == EntryDepth(m.depth, m.prev, inSection)
    requires if item.kind.Object? then item.text == "" else item.kind == classify(item.text)
    ensures Parse(Head(item) + rest, m, inSection, classify)
         == Then([Slot(depth, item)],
                 Parse(rest, if item.kind.Object? then In(depth + 1, AfterColon) else In(depth, AfterValue), inSection,
                       classify))
  {
    var t := Head(item) + rest;
    assert t[|Head(item)|..] == rest;
    if item.kind.Object? {
      assert t[0] == Str(item.key) && t[1] == Colon;
    } else {
      assert t[0] == Str(item.key) && t[1] == Equ && t[2] == Str(item.text);
    }
  }

  /** A printed list parses to its slots, whatever follows it. */
  lemma {:induction false} ListParses(f: Forest, depth: nat, inSection: bool, m: Mode, rest: seq<Token>,
                                      classify: string -> Kind)
    requires f.Cons? && Printable(f, depth, classify) && Enters(m, depth, BaseDepth(inSection))
    ensures Parse(Print(f, depth, BaseDepth(inSection)) + rest, m, inSection, classify)
         == Then(Flatten(f, depth), Parse(rest, In(LastDepth(f, depth), AfterValue), inSection, classify))
    decreases f
  {
    hide Parse, Print, Flatten;
    NilParts(depth, BaseDepth(inSection));
    NilParts(depth + 1, BaseDepth(inSection));
    PrintSplit(f, depth, BaseDepth(inSection), rest);
    FlattenSplit(f, depth);
    var base, item := BaseDepth(inSection), f.item;
    var below, after := Print(f.children, depth + 1, base), Print(f.rest, depth, base);
    var m' := if item.kind.Object? then In(depth + 1, AfterColon) else In(depth, AfterValue);
    var m'' := if item.kind.Object? then In(LastDepth(f.children, depth + 1), AfterValue) else m';
    var last := Parse(rest, In(LastDepth(f, depth), AfterValue), inSection, classify);
    EntryParses(item, depth, inSection, m, below + (after + rest), classify);
    assert Parse(below + (after + rest), m', inSection, classify)
        == Then(Flatten(f.children, depth + 1), Parse(after + rest, m'', inSection, classify)) by {
      if item.kind.Object? {
        ListParses(f.children, depth + 1, inSection, m', after + rest, classify);
      } else {
        assert below + (after + rest) == after + rest;
        Nothing(Parse(after + rest, m'', inSection, classify));
      }
    }
    assert Parse(after + rest, m'', inSection, classify) == Then(Flatten(f.rest, depth), last) by {
      if f.rest.Cons? {
        if item.kind.Object? { LastDepthBound(f.children, depth + 1); }
        ListParses(f.rest, depth, inSection, m'', rest, classify);
      } else {
        assert after + rest == rest;
        Nothing(last);
      }
    }
    ThenThen(Flatten(f.children, depth + 1), Flatten(f.rest, depth), last);
    ThenThen([Slot(depth, item)], Flatten(f.children, depth + 1) + Flatten(f.rest, depth), last);
  }

  lemma NilParts(depth: nat, base: nat)
    ensures Print(Nil, depth, base) == [] && Flatten(Nil, depth) == []
  {
  }

  lemma PrintSplit(f: Forest, depth: nat, base: nat, rest: seq<Token>)
    requires f.Cons? && f.item.Value?
    ensures Print(f, depth, base) + rest
         == Lead(depth, base) + Head(f.item)
            + (Print(f.children, depth + 1, base) + (Print(f.rest, depth, base) + rest))
  {
  }

  lemma FlattenSplit(f: Forest, depth: nat)
    requires f.Cons?
    ensures Flatten(f, depth) == [Slot(depth, f.item)] + (Flatten(f.children, depth + 1) + Flatten(f.rest, depth))
  {
  }

  // ----- Whole configurations -----

  /** Sections at the top, each with a list of entries. */
  ghost predicate PrintableSections(g: Forest, classify: string -> Kind) {
    match g
    case Nil => true
    case Cons(item, children, rest) =>
      && item.Loadable? && children.Cons? && Printable(children, 1, classify) && PrintableSections(rest, classify)
  }

  function PrintSections(g: Forest): seq<Token> {
    match g
    case Nil => []
    case Cons(item, children, rest) => [Section(item.key)] + Print(children, 1, 1) + PrintSections(rest)
  }

  function Append(f: Forest, g: Forest): Forest {
    match f
    case Nil => g
    case Cons(item, children, rest) => Cons(item, children, Append(rest, g))
  }

  lemma {:induction false} FlattenAppend(f: Forest, g: Forest, depth: nat)
    ensures Flatten(Append(f, g), depth) == Flatten(f, depth) + Flatten(g, depth)
  {
    if f.Cons? {
      FlattenAppend(f.rest, g, depth);
    }
  }

  lemma PrintStarts(f: Forest, base: nat, rest: seq<Token>)
    requires f.Cons? && f.item.Value?
    ensures var t := Print(f, base, base) + rest; t != [] && t[0].Str?
  {
    assert (Print(f, base, base) + rest)[0] == Str(f.item.key);
  }

  /** At the top, a list of entries parses as in a section or before the first one. */
  lemma TopListParses(f: Forest, inSection: bool, must: bool, rest: seq<Token>, classify: string -> Kind)
    requires f.Cons? && Printable(f, BaseDepth(inSection), classify) && (rest == [] || rest[0].Section?)
    ensures Parse(Print(f, BaseDepth(inSection), BaseDepth(inSection)) + rest, Top(must), inSection, classify)
         == Then(Flatten(f, BaseDepth(inSection)), Parse(rest, Top(false), inSection, classify))
  {
    var base := BaseDepth(inSection);
    PrintStarts(f, base, rest);
    ListParses(f, base, inSection, In(base, Start), rest, classify);
  }

  lemma {:induction false} SectionsParse(g: Forest, inSection: bool, classify: string -> Kind)
    requires PrintableSections(g, classify)
    ensures Parse(PrintSections(g), Top(false), inSection, classify) == Parsed(Flatten(g, 0))
    decreases g
  {
    hide Print, Printable;
    if g.Cons? {
      hide Parse;
      SectionsParse(g.rest, true, classify);
      OneSection(g.item, g.children, PrintSections(g.rest), Flatten(g.rest, 0), inSection, classify);
    }
  }

  lemma OneSection(item: Item, f: Forest, more: seq<Token>, slots: seq<Slot>, inSection: bool, classify: string -> Kind)
    requires item.Loadable? && f.Cons? && Printable(f, 1, classify) && (more == [] || more[0].Section?)
    requires Parse(more, Top(false), true, classify) == Parsed(slots)
    ensures Parse([Section(item.key)] + Print(f, 1, 1) + more, Top(false), inSection, classify)
         == Parsed([Slot(0, item)] + Flatten(f, 1) + slots)
  {
    hide Parse, Print, Printable, Flatten;
    var t := Print(f, 1, 1) + more;
    assert [Section(item.key)] + Print(f, 1, 1) + more == [Section(item.key)] + t;
    SectionParses(item.key, t, inSection, classify);
    TopListParses(f, true, true, more, classify);
    assert [Slot(0, item)] + Flatten(f, 1) + slots == [Slot(0, item)] + (Flatten(f, 1) + slots);
  }

  lemma SectionParses(name: string, t: seq<Token>, inSection: bool, classify: string -> Kind)
    ensures Parse([Section(name)] + t, Top(false), inSection, classify)
         == Then([Slot(0, Loadable(name))], Parse(t, Top(true), true, classify))
  {
    assert ([Section(name)] + t)[1..] == t;
  }

  /** Printing a configuration and parsing it gives its slots. */
  lemma ConfigParses(values: Forest, sections: Forest, classify: string -> Kind)
    requires Printable(values, 0, classify) && PrintableSections(sections, classify)
    ensures Parse(Print(values, 0, 0) + PrintSections(sections), Top(false), false, classify)
         == Parsed(Flatten(Append(values, sections), 0))
  {
    hide Parse;
    var more := PrintSections(sections);
    FlattenAppend(values, sections, 0);
    SectionsParse(sections, false, classify);
    if values.Cons? {
      TopListParses(values, false, false, more, classify);
    } else {
      assert Print(values, 0, 0) + more == more && [] + Flatten(sections, 0) == Flatten(sections, 0);
    }
  }

  /** No indentation ends the stream or is followed by another. */
  ghost predicate Spaced(t: seq<Token>) {
    && (forall k: nat :: k < |t| && t[k].Indent? ==> t[k].level >= 1)
    && (forall k: nat :: k < |t| && t[k].Indent? ==> k + 1 < |t| && !t[k + 1].Indent?)
  }

  lemma SpacedConcat(a: seq<Token>, b: seq<Token>)
    requires Spaced(a) && Spaced(b)
    ensures Spaced(a + b)
  {
    var t := a + b;
    forall k: nat | k < |t| && t[k].Indent?
      ensures t[k].level >= 1 && k + 1 < |t| && !t[k + 1].Indent?
    {
      if k < |a| { assert a[k].Indent?; } else { assert b[k - |a|].Indent?; }
    }
  }

  lemma {:induction false} PrintSpaced(f: Forest, depth: nat, base: nat)
    requires base <= depth
    ensures Spaced(Print(f, depth, base))
    decreases f
  {
    if f.Cons? && f.item.Value? {
      var h := Lead(depth, base) + Head(f.item);
      assert Spaced(h);
      PrintSpaced(f.children, depth + 1, base);
      PrintSpaced(f.rest, depth, base);
      SpacedConcat(h, Print(f.children, depth + 1, base));
      SpacedConcat(h + Print(f.children, depth + 1, base), Print(f.rest, depth, base));
    }
  }

  lemma {:induction false} SectionsSpaced(g: Forest)
    ensures Spaced(PrintSections(g))
    decreases g
  {
    if g.Cons? {
      PrintSpaced(g.children, 1, 1);
      SectionsSpaced(g.rest);
      assert Spaced([Section(g.item.key)]);
      SpacedConcat([Section(g.item.key)], Print(g.children, 1, 1));
      SpacedConcat([Section(g.item.key)] + Print(g.children, 1, 1), PrintSections(g.rest));
    }
  }

  /** Printed, parsed into the flat array and read back through its links, a configuration is itself. */
  method ParsePrinted(values: Forest, sections: Forest, classify: string -> Kind) returns (entries: seq<Entry>)
    requires forall s :: classify(s) != Object
    requires Printable(values, 0, classify) && PrintableSections(sections, classify)
    ensures if Append(values, sections).Nil? then entries == []
            else entries != [] && Decode(entries, 0) == Append(values, sections)
  {
    hide Parse, Stands, Decode, Flatten, Printable, PrintableSections;
    var tokens := Print(values, 0, 0) + PrintSections(sections);
    PrintSpaced(values, 0, 0);
    SectionsSpaced(sections);
    SpacedConcat(Print(values, 0, 0), PrintSections(sections));
    var p := new Parser(tokens, classify);
    var st := p.ParseConfig();
    ConfigParses(values, sections, classify);
    entries := p.cfg.entries;
    ReadBack(p.cfg.entries, p.cfg.slots, Append(values, sections));
  }

  lemma ReadBack(es: seq<Entry>, ss: seq<Slot>, f: Forest)
    requires Encodes(es, ss) && WellNested(ss) && ss == Flatten(f, 0)
    ensures if f.Nil? then es == [] else es != [] && Decode(es, 0) == f
  {
    if f.Cons? {
      FlattenDepths(f, 0);
      ArrayIsTree(es, ss);
    }
  }

  // ----- What the parser lets through -----

  /** Objects nested one in the other down to depth 15, around one value. */
  function Nest(d: nat): seq<Token>
    requires d <= 16
    decreases 16 - d
  {
    if d == 16 then [Indent(d), Str("k"), Equ, Str("v")]
    else Lead(d, 0) + Head(Value("o", Object, "")) + Nest(d + 1)
  }

  lemma ValueTooDeep(d: nat, classify: string -> Kind)
    requires d >= 16
    ensures Parse([Indent(d), Str("k"), Equ, Str("v")], In(d, AfterColon), false, classify) == Overrun
  {
    var t := [Indent(d), Str("k"), Equ, Str("v")];
    assert t[1..] == [Str("k"), Equ, Str("v")];
    assert Parse(t[1..], In(d, Indented), false, classify) == Overrun;
  }

  lemma {:induction false} NestOverruns(d: nat, classify: string -> Kind)
    requires d <= 16
    ensures Parse(Nest(d), In(d, if d == 0 then Start else AfterColon), false, classify) == Overrun
    decreases 16 - d
  {
    hide Parse;
    if d == 16 {
      ValueTooDeep(d, classify);
    } else {
      NestOverruns(d + 1, classify);
      EntryParses(Value("o", Object, ""), d, false, In(d, if d == 0 then Start else AfterColon), Nest(d + 1), classify);
    }
  }

  lemma NestStarts(d: nat)
    requires d == 0
    ensures Nest(d) != [] && Nest(d)[0] == Str("o")
  {
  }

  /** Sixteen objects around a value pass the depth check, which looks at objects only. */
  lemma NestedTooDeep(classify: string -> Kind)
    ensures Parse(Nest(0), Top(false), false, classify) == Overrun
  {
    NestOverruns(0, classify);
    NestStarts(0);
    hide Nest;
  }

  /** A value indented to a depth beyond the table. */
  ghost predicate Deep(t: seq<Token>, k: nat) {
    && k + 3 < |t| && t[k].Indent? && t[k].level >= 16
    && t[k + 1].Str? && t[k + 2].Equ? && t[k + 3].Str?
  }

  /** The parser gets to it: everything up to and with the indentation is a stream of its own. */
  ghost predicate OverrunAt(t: seq<Token>, k: nat, m: Mode, inSection: bool, classify: string -> Kind) {
    Deep(t, k) && Parse(t[..k + 1], m, inSection, classify).Parsed?
  }

  lemma FetchedRest(t: seq<Token>, n: nat)
    requires Fetched(t) && n <= |t|
    ensures Fetched(t[n..])
  {
  }

  /** One step of the parser: from mode `m` it consumes `n` tokens and goes on in mode `m'`. */
  predicate Steps(t: seq<Token>, m: Mode, s: bool, n: nat, m': Mode, s': bool) {
    && t != [] && n <= |t|
    && match m
       case Top(must) =>
         if t[0].Str? then n == 0 && m' == In(BaseDepth(s), Start) && s' == s
         else t[0].Section? && !must && n == 1 && m' == Top(true) && s'
       case In(depth, prev) =>
         && s' == s && (prev.AfterColon? ==> t[0] == Indent(depth))
         && if t[0].Section? then n == 0 && m' == Top(false)
            else if t[0].Indent? then t[0].level <= depth && n == 1 && m' == In(t[0].level, Indented)
            else
              var d := EntryDepth(depth, prev, s);
              && t[0].Str? && d < MAX_DEPTH
              && if |t| > 1 && t[1].Colon? then n == 2 && m' == In(d + 1, AfterColon)
                 else |t| > 2 && t[1].Equ? && t[2].Str? && n == 3 && m' == In(d, AfterValue)
  }

  /** A step does not change how the stream ends. */
  lemma StepKeeps(t: seq<Token>, m: Mode, s: bool, n: nat, m': Mode, s': bool, classify: string -> Kind)
    requires Steps(t, m, s, n, m', s')
    ensures Parse(t, m, s, classify).Overrun? <==> Parse(t[n..], m', s', classify).Overrun?
    ensures Parse(t, m, s, classify).Parsed? <==> Parse(t[n..], m', s', classify).Parsed?
  {
    if n == 0 { assert t[n..] == t; }
  }

  /** The value the stream starts with is beyond the table. */
  predicate TooDeep(t: seq<Token>, m: Mode, s: bool) {
    && m.In? && !m.prev.AfterColon? && EntryDepth(m.depth, m.prev, s) >= 16
    && |t| > 2 && t[0].Str? && t[1].Equ? && t[2].Str?
  }

  /** A stream that is not refused is at its end, at a value beyond the table, or has a step. */
  lemma HasStep(t: seq<Token>, m: Mode, s: bool, classify: string -> Kind) returns (n: nat, m': Mode, s': bool)
    requires !Parse(t, m, s, classify).Rejected? && t != [] && !TooDeep(t, m, s)
    ensures Steps(t, m, s, n, m', s')
  {
    s' := s;
    match m
    case Top(_) =>
      if t[0].Str? { n, m' := 0, In(BaseDepth(s), Start); } else { n, m', s' := 1, Top(true), true; }
    case In(depth, prev) =>
      if t[0].Section? {
        n, m' := 0, Top(false);
      } else if t[0].Indent? {
        n, m' := 1, In(t[0].level, Indented);
      } else {
        var d := EntryDepth(depth, prev, s);
        if t[1].Colon? { n, m' := 2, In(d + 1, AfterColon); } else { n, m' := 3, In(d, AfterValue); }
      }
  }

  lemma EndsFine(t: seq<Token>, m: Mode, s: bool, classify: string -> Kind)
    requires TooDeep(t, m, s) || t == []
    ensures Parse(t, m, s, classify).Overrun? <==> TooDeep(t, m, s)
    ensures TooDeep(t, m, s) ==> !Parse(t, m, s, classify).Parsed?
  {
  }

  /** A step looks at the tokens it consumes and at the first one only. */
  lemma StepLocal(t: seq<Token>, m: Mode, s: bool, n: nat, m': Mode, s': bool, k: nat)
    requires n <= k < |t|
    ensures Steps(t[..k + 1], m, s, n, m', s') <==> Steps(t, m, s, n, m', s')
    ensures t[..k + 1][n..] == t[n..][..k - n + 1]
  {
    assert forall i: nat :: i <= k ==> t[..k + 1][i] == t[i];
  }

  function Rank(t: seq<Token>, m: Mode): nat {
    if m.Top? <==> t != [] && t[0].Str? then 1 else 0
  }

  lemma StepRanks(t: seq<Token>, m: Mode, s: bool, n: nat, m': Mode, s': bool)
    requires Steps(t, m, s, n, m', s')
    ensures n == 0 ==> t[n..] == t && Rank(t, m) == 1 && Rank(t, m') == 0
  {
  }

  /** A deep value that is reached overruns the table. */
  lemma {:induction false} DeepOverruns(t: seq<Token>, k: nat, m: Mode, s: bool, classify: string -> Kind)
    requires OverrunAt(t, k, m, s, classify)
    ensures Parse(t, m, s, classify).Overrun?
    decreases |t|, Rank(t, m)
  {
    hide Parse, Steps, Rank;
    var p := t[..k + 1];
    assert p[0] == t[0];
    if TooDeep(p, m, s) { EndsFine(p, m, s, classify); }
    var n, m', s' := HasStep(p, m, s, classify);
    StepKeeps(p, m, s, n, m', s', classify);
    LastStep(t, k, m, s, n, m', s');
    if n <= k {
      StepLocal(t, m, s, n, m', s', k);
      StepKeeps(t, m, s, n, m', s', classify);
      StepRanks(t, m, s, n, m', s');
      DeepOverruns(t[n..], k - n, m', s', classify);
    } else {
      StepKeeps(t, m, s, n, m', s', classify);
      EndsFine(t[1..], m', s', classify);
    }
  }

  /** The step that consumes the last token of the prefix is the one over the deep indentation. */
  lemma LastStep(t: seq<Token>, k: nat, m: Mode, s: bool, n: nat, m': Mode, s': bool)
    requires Deep(t, k) && Steps(t[..k + 1], m, s, n, m', s')
    ensures n > k ==> n == 1 && k == 0 && Steps(t, m, s, n, m', s') && TooDeep(t[1..], m', s')
  {
    var p := t[..k + 1];
    assert p[k] == t[k] && p[0] == t[0];
  }

  /** An overrun is at a deep value that is reached. */
  lemma {:induction false} OverrunIsDeep(t: seq<Token>, m: Mode, s: bool, classify: string -> Kind) returns (k: nat)
    requires Parse(t, m, s, classify).Overrun? && !TooDeep(t, m, s)
    ensures OverrunAt(t, k, m, s, classify)
    decreases |t|, Rank(t, m)
  {
    hide Parse, Steps, Rank, TooDeep;
    if t == [] { EndsFine(t, m, s, classify); }
    var n, m', s' := HasStep(t, m, s, classify);
    StepKeeps(t, m, s, n, m', s', classify);
    StepRanks(t, m, s, n, m', s');
    if TooDeep(t[n..], m', s') {
      k := 0;
      StepIntoDeep(t, m, s, n, m', s', classify);
    } else {
      var k' := OverrunIsDeep(t[n..], m', s', classify);
      k := k' + n;
      StepLocal(t, m, s, n, m', s', k);
      StepKeeps(t[..k + 1], m, s, n, m', s', classify);
      assert Deep(t, k) by { assert Deep(t[n..], k'); }
    }
  }

  /** Only an indentation leads to a value beyond the table. */
  lemma StepIntoDeep(t: seq<Token>, m: Mode, s: bool, n: nat, m': Mode, s': bool, classify: string -> Kind)
    requires Steps(t, m, s, n, m', s') && TooDeep(t[n..], m', s') && !TooDeep(t, m, s)
    ensures OverrunAt(t, 0, m, s, classify)
  {
    assert n == 1 && t[1..][0] == t[1] && t[1..][1] == t[2] && t[1..][2] == t[3];
    var p := t[..1];
    assert p[0] == t[0] && p[1..] == [];
    StepKeeps(p, m, s, 1, m', s', classify);
  }

  /** Any stream overruns the depth table exactly when a value indented beyond it is reached. */
  lemma OverrunIff(t: seq<Token>, m: Mode, inSection: bool, classify: string -> Kind)
    requires !TooDeep(t, m, inSection)
    ensures Parse(t, m, inSection, classify).Overrun? <==> exists k: nat :: OverrunAt(t, k, m, inSection, classify)
  {
    hide OverrunAt, Parse;
    if Parse(t, m, inSection, classify).Overrun? {
      var k := OverrunIsDeep(t, m, inSection, classify);
    }
    if k: nat :| OverrunAt(t, k, m, inSection, classify) {
      DeepOverruns(t, k, m, inSection, classify);
    }
  }

  /** The object at `i` holds nothing. */
  predicate EmptyAt(ss: seq<Slot>, i: nat) {
    i < |ss| && ss[i].item.Value? && ss[i].item.kind.Object? && !(i + 1 < |ss| && ss[i + 1].item.Value?)
  }

  ghost predicate HasEmpty(ss: seq<Slot>) {
    exists i: nat :: EmptyAt(ss, i)
  }

  /** An object's line, then an indentation with no entry after it. */
  predicate BareAt(t: seq<Token>, k: nat) {
    k + 1 < |t| && t[k].Colon? && t[k + 1].Indent? && (k + 2 == |t| || t[k + 2].Section?)
  }

  ghost predicate HasBare(t: seq<Token>) {
    exists k: nat :: BareAt(t, k)
  }

  lemma BareShift(t: seq<Token>, n: nat)
    requires n <= |t|
    ensures HasBare(t) <==> HasBare(t[n..]) || exists k: nat :: k < n && BareAt(t, k)
  {
    if k: nat :| BareAt(t, k) && k >= n { assert BareAt(t[n..], k - n); }
    if k: nat :| BareAt(t[n..], k) { assert BareAt(t, n + k); }
  }

  lemma EmptyShift(s: Slot, ss: seq<Slot>)
    ensures HasEmpty([s] + ss) <==> HasEmpty(ss) || EmptyAt([s] + ss, 0)
  {
    var all := [s] + ss;
    if i: nat :| EmptyAt(all, i) && i > 0 { assert EmptyAt(ss, i - 1); }
    if i: nat :| EmptyAt(ss, i) { assert EmptyAt(all, i + 1); }
  }

  /** The first slot of what is left is a value exactly when an entry comes next. */
  lemma FirstSlot(t: seq<Token>, m: Mode, inSection: bool, classify: string -> Kind)
    requires Parse(t, m, inSection, classify).Parsed? && m.In? && !m.prev.AfterColon? && (t == [] || !t[0].Indent?)
    ensures var ss := Parse(t, m, inSection, classify).slots;
            (ss != [] && ss[0].item.Value?) <==> t != [] && t[0].Str?
  {
  }

  lemma BareSkip(t: seq<Token>)
    requires t != [] && !t[0].Colon?
    ensures HasBare(t) <==> HasBare(t[1..])
  {
    BareShift(t, 1);
  }

  lemma EmptySkip(s: Slot, ss: seq<Slot>)
    requires !s.item.Value? || !s.item.kind.Object?
    ensures HasEmpty([s] + ss) <==> HasEmpty(ss)
  {
    EmptyShift(s, ss);
  }

  lemma NoneEmpty()
    ensures !HasEmpty([]) && !HasBare([])
  {
  }

  /** Empty objects are refused but for one shape: an indentation right before a section or the end. */
  lemma {:induction false} EmptyObjectIff(t: seq<Token>, m: Mode, inSection: bool, classify: string -> Kind)
    requires Fetched(t) && Parse(t, m, inSection, classify).Parsed? && (m.In? ==> !m.prev.AfterColon?)
    requires forall s :: classify(s) != Object
    ensures HasEmpty(Parse(t, m, inSection, classify).slots) <==> HasBare(t)
    decreases |t|, if m.Top? <==> t != [] && t[0].Str? then 1 else 0
  {
    hide HasEmpty, HasBare, EmptyAt, BareAt;
    NoneEmpty();
    match m
    case Top(must) =>
      if t == [] {
      } else if t[0].Str? {
        EmptyObjectIff(t, In(BaseDepth(inSection), Start), inSection, classify);
      } else {
        BareSkip(t);
        FetchedRest(t, 1);
        EmptyObjectIff(t[1..], Top(true), true, classify);
        EmptySkip(Slot(0, Loadable(t[0].name)), Parse(t[1..], Top(true), true, classify).slots);
      }
    case In(depth, prev) =>
      if t == [] || t[0].Section? {
        EmptyObjectIff(t, Top(false), inSection, classify);
      } else if t[0].Indent? {
        BareSkip(t);
        FetchedRest(t, 1);
        EmptyObjectIff(t[1..], In(t[0].level, Indented), inSection, classify);
      } else {
        EmptyEntry(t, depth, prev, inSection, classify);
        var d := EntryDepth(depth, prev, inSection);
        if t[1].Colon? {
          FetchedRest(t, 3);
          EmptyObjectIff(t[3..], In(d + 1, Indented), inSection, classify);
        } else {
          FetchedRest(t, 3);
          EmptyObjectIff(t[3..], In(d, AfterValue), inSection, classify);
        }
      }
  }

  lemma EmptyEntry(t: seq<Token>, depth: nat, prev: Prev, inSection: bool, classify: string -> Kind)
    requires Fetched(t) && Parse(t, In(depth, prev), inSection, classify).Parsed? && !prev.AfterColon?
    requires t != [] && t[0].Str? && forall s :: classify(s) != Object
    ensures |t| >= 3 && (t[1].Colon? || t[1].Equ?)
    ensures var d := EntryDepth(depth, prev, inSection);
            var m := In(if t[1].Colon? then d + 1 else d, if t[1].Colon? then Indented else AfterValue);
            var rest := Parse(t[3..], m, inSection, classify);
            && rest.Parsed?
            && (HasEmpty(Parse(t, In(depth, prev), inSection, classify).slots)
                <==> HasEmpty(rest.slots) || BareAt(t, 1))
            && (HasBare(t) <==> HasBare(t[3..]) || BareAt(t, 1))
  {
    hide HasEmpty, HasBare, EmptyAt, BareAt;
    var d := EntryDepth(depth, prev, inSection);
    BareThree(t);
    if t[1].Colon? {
      assert t[2..][1..] == t[3..];
      var m := In(d + 1, Indented);
      FirstSlot(t[3..], m, inSection, classify);
      var ss := Parse(t[3..], m, inSection, classify).slots;
      EmptyObject(Slot(d, Value(t[0].s, Object, "")), ss);
      BareSecond(t);
    } else {
      BareSecond(t);
      EmptySkip(Slot(d, Value(t[0].s, classify(t[2].s), t[2].s)),
                Parse(t[3..], In(d, AfterValue), inSection, classify).slots);
    }
  }

  lemma BareThree(t: seq<Token>)
    requires |t| >= 3 && !t[0].Colon? && !t[2].Colon?
    ensures HasBare(t) <==> HasBare(t[3..]) || BareAt(t, 1)
  {
    BareShift(t, 3);
  }

  lemma BareSecond(t: seq<Token>)
    requires |t| >= 3
    ensures BareAt(t, 1) <==> t[1].Colon? && t[2].Indent? && (|t| == 3 || t[3].Section?)
  {
  }

  lemma EmptyObject(s: Slot, ss: seq<Slot>)
    requires s.item.Value? && s.item.kind.Object?
    ensures HasEmpty([s] + ss) <==> HasEmpty(ss) || !(ss != [] && ss[0].item.Value?)
  {
    EmptyShift(s, ss);
  }

  lemma EmptyObjectExample(classify: string -> Kind)
    requires forall s :: classify(s) != Object
    ensures var t := [Str("foo"), Colon, Indent(1), Section("bar"), Str("a"), Equ, Str("b")];
            Parse(t, Top(false), false, classify).Parsed? && HasEmpty(Parse(t, Top(false), false, classify).slots)
  {
    var t := [Str("foo"), Colon, Indent(1), Section("bar"), Str("a"), Equ, Str("b")];
    var t3, t4 := t[3..], t[4..];
    assert t4 == [Str("a"), Equ, Str("b")] && t3[1..] == t4 && t4[3..] == [] && t[2..][1..] == t3;
    assert Parse([], In(1, AfterValue), true, classify).Parsed?;
    assert Parse(t4, In(1, Start), true, classify).Parsed?;
    assert Parse(t3, Top(false), false, classify).Parsed?;
    assert Parse(t3, In(1, Indented), false, classify).Parsed?;
    assert Parse(t[2..], In(1, AfterColon), false, classify).Parsed?;
    assert Parse(t, In(0, Start), false, classify).Parsed?;
    assert BareAt(t, 1);
    EmptyObjectIff(t, Top(false), false, classify);
  }
}
