/**
 * CommandLineParser: a typed line becomes a player interaction. The line is lower-cased
 * and trimmed, cut at single spaces, and one, two or three words are understood:
 * `help`/`quit`, `move <direction>`/`pick <item>`, `shoot <direction> <distance>`, each
 * with a one-letter alias.
 */
module CommandParser {
  import opened Wrappers
  import opened Grid
  import opened Text
  import opened Lists

  /** The item nouns a pick command names. */
  datatype ItemNoun = TreasureNoun | ArrowNoun

  /** The interactions a line can ask for (PlayerInteraction with its verb, noun and qualifier). */
  datatype Interaction =
    | Help
    | Quit
    | Move(direction: Direction)
    | Pick(item: ItemNoun)
    | Shoot(direction: Direction, distance: int)

  /** The range of a Java `int`, which `Integer.parseInt` keeps to. */
  const IntMin: int := -0x8000_0000
  const IntMax: int := 0x7fff_ffff

  /** The full word of each direction, the reference for the alias table. */
  function DirectionWord(d: Direction): string
  {
    match d
    case North => "north"
    case South => "south"
    case West => "west"
    case East => "east"
  }

  /** The full word of each item noun. */
  function ItemWord(t: ItemNoun): string
  {
    match t
    case TreasureNoun => "treasure"
    case ArrowNoun => "arrow"
  }

  /** `parseDirection`: a direction's full word or its first letter, in any case. */
  function ParseDirection(s: string): (r: Result<Direction>)
    ensures r.Failure? ==> r.error == "Not a valid direction"
    ensures r.Success? ==> ToLower(s) == DirectionWord(r.value) || ToLower(s) == [DirectionWord(r.value)[0]]
  {
    var w := ToLower(s);
    if w == "n" || w == "north" then Success(North)
    else if w == "s" || w == "south" then Success(South)
    else if w == "w" || w == "west" then Success(West)
    else if w == "e" || w == "east" then Success(East)
    else Failure("Not a valid direction")
  }

  /** `parseItemType`: an item noun's full word or its first letter, in any case. */
  function ParseItemType(s: string): (r: Result<ItemNoun>)
    ensures r.Failure? ==> r.error == "Not a valid item type"
    ensures r.Success? ==> ToLower(s) == ItemWord(r.value) || ToLower(s) == [ItemWord(r.value)[0]]
  {
    var w := ToLower(s);
    if w == "t" || w == "treasure" then Success(TreasureNoun)
    else if w == "a" || w == "arrow" then Success(ArrowNoun)
    else Failure("Not a valid item type")
  }

  predicate IsDigit(c: char)
  {
    '0' <= c <= '9'
  }

  predicate AllDigits(s: string)
  {
    forall i | 0 <= i < |s| :: IsDigit(s[i])
  }

  /** The value of a string of decimal digits, read from the left. */
  function DigitsValue(s: string): nat
    requires AllDigits(s)
  {
    if s == [] then 0 else DigitsValue(s[..|s| - 1]) * 10 + (s[|s| - 1] as int - '0' as int)
  }

  /**
   * `Integer.parseInt`: an optional sign, then one or more decimal digits, whose value
   * must lie in the range of an `int`; anything else is a NumberFormatException (None).
   */
  function ParseInt(s: string): (r: Option<int>)
    ensures r.Some? ==> IntMin <= r.value <= IntMax
    ensures r.Some? ==> s != [] && (s[0] == '-' || s[0] == '+' || IsDigit(s[0]))
    ensures r.Some? && s[0] == '-' ==> r.value <= 0
    ensures r.Some? && s[0] != '-' ==> r.value >= 0
  {
    if s == [] then None
    else
      var negative := s[0] == '-';
      var digits := if s[0] == '-' || s[0] == '+' then s[1..] else s;
      if digits == [] || !AllDigits(digits) then None
      else
        var v: int := if negative then 0 - DigitsValue(digits) else DigitsValue(digits);
        if IntMin <= v <= IntMax then Some(v) else None
  }

  /** The verb words, each with its one-letter alias. */
  predicate IsHelpVerb(v: string) { v == "help" || v == "h" }
  predicate IsQuitVerb(v: string) { v == "quit" || v == "q" }
  predicate IsMoveVerb(v: string) { v == "move" || v == "m" }
  predicate IsPickVerb(v: string) { v == "pick" || v == "p" }
  predicate IsShootVerb(v: string) { v == "shoot" || v == "s" }

  /** `onlyVerbCommand`: `help`/`h` or `quit`/`q`. */
  function OnlyVerb(verb: string): (r: Result<Interaction>)
    ensures r.Success? ==> Arity(r.value) == 1
    ensures r.Success? <==> IsHelpVerb(verb) || IsQuitVerb(verb)
    ensures r.Success? ==> r.value == (if IsHelpVerb(verb) then Help else Quit)
    ensures r.Failure? ==> r.error == "Not a valid command"
  {
    if IsHelpVerb(verb) then Success(Help)
    else if IsQuitVerb(verb) then Success(Quit)
    else Failure("Not a valid command")
  }

  /**
   * `verbNounCommand`: `move`/`m` with a direction or `pick`/`p` with an item noun. The
   * words reach it already in lower case, so its own `toLowerCase` of the verb changes
   * nothing and is left out.
   */
  function VerbNoun(verb: string, noun: string): (r: Result<Interaction>)
    ensures r.Success? ==> Arity(r.value) == 2
    ensures r.Success? && r.value.Move? ==> IsMoveVerb(verb) && ParseDirection(noun) == Success(r.value.direction)
    ensures r.Success? && r.value.Pick? ==> IsPickVerb(verb) && ParseItemType(noun) == Success(r.value.item)
    ensures !IsMoveVerb(verb) && !IsPickVerb(verb) ==> r == Failure("Not a valid command")
  {
    if IsMoveVerb(verb) then
      var d := ParseDirection(noun);
      if d.Success? then Success(Move(d.value)) else Failure(d.error)
    else if IsPickVerb(verb) then
      var t := ParseItemType(noun);
      if t.Success? then Success(Pick(t.value)) else Failure(t.error)
    else Failure("Not a valid command")
  }

  /**
   * `verbNounQualifierAction` and `getShootInteraction`: `shoot`/`s`, a direction, then a
   * distance that must parse as an `int`; the distance is not range-checked here.
   */
  function VerbNounQualifier(verb: string, noun: string, qualifier: string): (r: Result<Interaction>)
    ensures !IsShootVerb(verb) ==> r == Failure("Not a valid command")
    ensures IsShootVerb(verb) && ParseDirection(noun).Failure? ==> r == Failure("Not a valid direction")
    ensures IsShootVerb(verb) && ParseDirection(noun).Success? && ParseInt(qualifier).None? ==>
              r == Failure("Not a valid shoot distance. Distance must be integer")
    ensures r.Success? ==> Arity(r.value) == 3
    ensures r.Success? ==> r.value == Shoot(ParseDirection(noun).value, ParseInt(qualifier).value)
  {
    if IsShootVerb(verb) then
      var d := ParseDirection(noun);
      if d.Failure? then Failure(d.error)
      else if ParseInt(qualifier).None? then Failure("Not a valid shoot distance. Distance must be integer")
      else Success(Shoot(d.value, ParseInt(qualifier).value))
    else Failure("Not a valid command")
  }

  /** The words of a line, as `parseCommand` cuts them. */
  function Tokens(input: string): seq<string>
  {
    Split(Trim(ToLower(input)))
  }

  /** How many words each interaction is typed with. */
  function Arity(i: Interaction): nat
  {
    match i
    case Help | Quit => 1
    case Move(_) | Pick(_) => 2
    case Shoot(_, _) => 3
  }

  /** `parseCommand`: one, two or three words, each count handled by its own rule. */
  function ParseCommand(input: string): (r: Result<Interaction>)
    ensures r.Success? ==> |Tokens(input)| == Arity(r.value)
    ensures r.Success? && r.value.Shoot? ==> IntMin <= r.value.distance <= IntMax
    ensures |Tokens(input)| > 3 ==> r == Failure("Not a valid command")
  {
    var tokens := Tokens(input);
    if |tokens| == 1 then OnlyVerb(tokens[0])
    else if |tokens| == 2 then VerbNoun(tokens[0], tokens[1])
    else if |tokens| == 3 then VerbNounQualifier(tokens[0], tokens[1], tokens[2])
    else Failure("Not a valid command")
  }

  // ---------------------------------------------------------------------------------
  // The canonical text of an interaction, and the round trip through the parser.

  /** `Integer.toString`: a minus sign for a negative number, then its digits. */
  function IntToString(n: int): (r: string)
    ensures r != [] && (r[0] == '-' || IsDigit(r[0])) && IsDigit(r[|r| - 1])
    ensures forall i | 0 <= i < |r| :: r[i] == '-' || IsDigit(r[i])
  {
    if n < 0 then "-" + NatToString(-n) else NatToString(n)
  }

  /** The words a player would type for an interaction, in full. */
  function Words(i: Interaction): seq<string>
  {
    match i
    case Help => ["help"]
    case Quit => ["quit"]
    case Move(d) => ["move", DirectionWord(d)]
    case Pick(t) => ["pick", ItemWord(t)]
    case Shoot(d, n) => ["shoot", DirectionWord(d), IntToString(n)]
  }

  /** The line a player would type for an interaction: its words, one space apart. */
  function Unparse(i: Interaction): string
  {
    Join(Words(i))
  }

  lemma {:induction false} DigitsOfNat(n: nat)
    ensures AllDigits(NatToString(n)) && DigitsValue(NatToString(n)) == n
  {
    var s := NatToString(n);
    if n >= 10 {
      DigitsOfNat(n / 10);
      assert s[..|s| - 1] == NatToString(n / 10);
    }
  }

  /** Reading back the text of any `int` gives the same number. */
  lemma ParseIntRoundTrip(n: int)
    requires IntMin <= n <= IntMax
    ensures ParseInt(IntToString(n)) == Some(n)
  {
    if n < 0 {
      DigitsOfNat(-n);
      ParseNegative(NatToString(-n));
    } else {
      DigitsOfNat(n);
      ParseNonNegative(NatToString(n));
    }
  }

  /** A minus sign and a digit string whose negation fits an `int` reads as that negation. */
  lemma ParseNegative(t: string)
    requires t != [] && AllDigits(t) && IntMin <= 0 - DigitsValue(t)
    ensures ParseInt("-" + t) == Some(0 - DigitsValue(t))
  {
    var s := "-" + t;
    assert s[0] == '-' && s[1..] == t;
  }

  /** A digit string whose value fits an `int` reads as that value. */
  lemma ParseNonNegative(t: string)
    requires t != [] && AllDigits(t) && DigitsValue(t) <= IntMax
    ensures ParseInt(t) == Some(DigitsValue(t))
  {
    assert IsDigit(t[0]);
  }

  /** A string without capitals is its own lower case. */
  lemma LowerKeeps(s: string)
    requires forall i | 0 <= i < |s| :: !('A' <= s[i] <= 'Z')
    ensures ToLower(s) == s
  {
  }

  /** A string that starts and ends with a printable character is its own trim. */
  lemma TrimKeeps(s: string)
    requires s != [] && !IsTrimmable(s[0]) && !IsTrimmable(s[|s| - 1])
    ensures Trim(s) == s
  {
  }

  /** A word, a space, and the rest: the word is the first field. */
  lemma FieldsCons(a: string, b: string)
    requires ' ' !in a
    ensures Fields(a + " " + b) == [a] + Fields(b)
  {
    var s := a + " " + b;
    assert s[|a|] == ' ';
    var i := IndexOf(s, ' ');
    assert s[..|a|] == a;
    assert i == |a|;
    assert s[i + 1..] == b;
  }

  /** A word as the parser reads one: not empty, printable, without spaces or capitals. */
  predicate IsWord(w: string)
  {
    w != [] && forall i | 0 <= i < |w| :: ' ' < w[i] && !('A' <= w[i] <= 'Z')
  }

  /** Words joined by single spaces: the ends are the words' ends, and the fields are the words. */
  lemma {:induction false} JoinWords(ws: seq<string>)
    requires |ws| >= 1 && forall k | 0 <= k < |ws| :: IsWord(ws[k])
    ensures Join(ws) != [] && !IsTrimmable(Join(ws)[0]) && !IsTrimmable(Join(ws)[|Join(ws)| - 1])
    ensures forall i | 0 <= i < |Join(ws)| :: !('A' <= Join(ws)[i] <= 'Z')
    ensures Fields(Join(ws)) == ws
  {
    var s := Join(ws);
    if |ws| == 1 {
      assert s == ws[0];
      assert ' ' !in s;
    } else {
      var rest := Join(ws[1..]);
      JoinWords(ws[1..]);
      assert s == ws[0] + " " + rest;
      assert ' ' !in ws[0];
      FieldsCons(ws[0], rest);
      assert ws == [ws[0]] + ws[1..];
      WordThenLine(ws[0], rest);
    }
  }

  /** A word, a space and a line that ends printably and has no capitals: so does the whole. */
  lemma WordThenLine(a: string, rest: string)
    requires IsWord(a) && rest != [] && !IsTrimmable(rest[|rest| - 1])
    requires forall i | 0 <= i < |rest| :: !('A' <= rest[i] <= 'Z')
    ensures var s := a + " " + rest;
      !IsTrimmable(s[0]) && !IsTrimmable(s[|s| - 1]) && forall i | 0 <= i < |s| :: !('A' <= s[i] <= 'Z')
  {
    var s := a + " " + rest;
    assert s[0] == a[0] && s[|s| - 1] == rest[|rest| - 1];
    forall i | 0 <= i < |s|
      ensures !('A' <= s[i] <= 'Z')
    {
      if i < |a| {
        assert s[i] == a[i];
      } else if i > |a| {
        assert s[i] == rest[i - |a| - 1];
      }
    }
  }

  /** A line of one or more words is cut back into exactly those words. */
  lemma TokensOfWords(ws: seq<string>)
    requires |ws| >= 1 && forall k | 0 <= k < |ws| :: IsWord(ws[k])
    ensures Tokens(Join(ws)) == ws
  {
    JoinWords(ws);
    var s := Join(ws);
    LowerKeeps(s);
    TrimKeeps(s);
    assert ws[|ws| - 1] != "";
  }

  lemma DirectionWords(d: Direction)
    ensures IsWord(DirectionWord(d)) && IsWord([DirectionWord(d)[0]])
    ensures ParseDirection(DirectionWord(d)) == Success(d)
    ensures ParseDirection([DirectionWord(d)[0]]) == Success(d)
  {
    LowerKeeps(DirectionWord(d));
    LowerKeeps([DirectionWord(d)[0]]);
  }

  lemma ItemWords(t: ItemNoun)
    ensures IsWord(ItemWord(t)) && IsWord([ItemWord(t)[0]])
    ensures ParseItemType(ItemWord(t)) == Success(t)
    ensures ParseItemType([ItemWord(t)[0]]) == Success(t)
  {
    LowerKeeps(ItemWord(t));
    LowerKeeps([ItemWord(t)[0]]);
  }

  /** How a line of exactly two words is read. */
  lemma TwoWordLine(input: string, ws: seq<string>)
    requires Tokens(input) == ws && |ws| == 2
    ensures ParseCommand(input) == VerbNoun(ws[0], ws[1])
  {
  }

  /** How a line of exactly three words is read. */
  lemma ThreeWordLine(input: string, ws: seq<string>)
    requires Tokens(input) == ws && |ws| == 3
    ensures ParseCommand(input) == VerbNounQualifier(ws[0], ws[1], ws[2])
  {
  }

  lemma PickVerbs()
    ensures IsWord("pick") && IsWord("p")
    ensures IsPickVerb("pick") && !IsMoveVerb("pick")
    ensures IsPickVerb("p") && !IsMoveVerb("p")
  {
    assert "pick"[0] == 'p' && "move"[0] == 'm';
  }

  lemma ShootWords(n: int)
    ensures IsWord("shoot") && IsShootVerb("shoot") && IsWord(IntToString(n))
  {
  }

  lemma MoveRoundTrip(d: Direction)
    ensures ParseCommand(Unparse(Move(d))) == Success(Move(d))
  {
    DirectionWords(d);
    var ws := ["move", DirectionWord(d)];
    TokensOfWords(ws);
    assert Tokens(Unparse(Move(d))) == ws;
    assert IsMoveVerb(ws[0]);
  }

  lemma PickRoundTrip(t: ItemNoun)
    ensures ParseCommand(Unparse(Pick(t))) == Success(Pick(t))
  {
    ItemWords(t);
    PickVerbs();
    var ws := ["pick", ItemWord(t)];
    TokensOfWords(ws);
    TwoWordLine(Unparse(Pick(t)), ws);
    assert VerbNoun(ws[0], ws[1]) == Success(Pick(t));
  }

  /** Three words one space apart are read by the three-word rule. */
  lemma ThreeWordCommand(a: string, b: string, c: string)
    requires IsWord(a) && IsWord(b) && IsWord(c)
    ensures ParseCommand(Join([a, b, c])) == VerbNounQualifier(a, b, c)
  {
    var ws := [a, b, c];
    assert forall k | 0 <= k < |ws| :: IsWord(ws[k]);
    TokensOfWords(ws);
    ThreeWordLine(Join(ws), ws);
  }

  lemma ShootRoundTrip(d: Direction, n: int)
    requires IntMin <= n <= IntMax
    ensures ParseCommand(Unparse(Shoot(d, n))) == Success(Shoot(d, n))
  {
    var a, b, c := "shoot", DirectionWord(d), IntToString(n);
    DirectionWords(d);
    ShootWords(n);
    ParseIntRoundTrip(n);
    ThreeWordCommand(a, b, c);
    assert Words(Shoot(d, n)) == [a, b, c];
  }

  /**
   * Every interaction, typed with its full words, parses back to itself; for a shot
   * this holds for every `int` distance, including negative ones and ones above five,
   * since the parser does not range-check distances.
   */
  lemma {:induction false} ParseUnparse(i: Interaction)
    requires i.Shoot? ==> IntMin <= i.distance <= IntMax
    ensures ParseCommand(Unparse(i)) == Success(i)
  {
    match i {
      case Help =>
        TokensOfWords(["help"]);
        assert IsHelpVerb("help");
      case Quit =>
        TokensOfWords(["quit"]);
        assert IsQuitVerb("quit") && !IsHelpVerb("quit");
      case Move(d) => MoveRoundTrip(d);
      case Pick(t) => PickRoundTrip(t);
      case Shoot(d, n) => ShootRoundTrip(d, n);
    }
  }

  /** The one-letter aliases of a move and its direction mean the same as the full words. */
  lemma ShortMove(d: Direction)
    ensures ParseCommand(Join(["m", [DirectionWord(d)[0]]])) == Success(Move(d))
  {
    DirectionWords(d);
    var ws := ["m", [DirectionWord(d)[0]]];
    TokensOfWords(ws);
    assert IsMoveVerb(ws[0]);
  }

  /** The one-letter aliases of a pick and its item mean the same as the full words. */
  lemma ShortPick(t: ItemNoun)
    ensures ParseCommand(Join(["p", [ItemWord(t)[0]]])) == Success(Pick(t))
  {
    ItemWords(t);
    PickVerbs();
    var ws := ["p", [ItemWord(t)[0]]];
    TokensOfWords(ws);
    TwoWordLine(Join(ws), ws);
    assert VerbNoun(ws[0], ws[1]) == Success(Pick(t));
  }
}
