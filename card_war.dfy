/**
 * The winamax-battle bot (src/bin/winamax-battle.rs): the card ranks, the
 * parser of the referee's card names, and the game of war the bot plays out
 * over two decks and two stacks.
 */
module CardWar {
  import opened Wrappers

  /** The thirteen ranks, in the order the Rust enum declares them. */
  datatype Card = Two | Three | Four | Five | Six | Seven | Eight | Nine | Ten | J | Q | K | A

  /** The enum discriminant (`Two = 2`, then counting up); `PartialOrd` compares these. */
  function Value(c: Card): (v: nat)
    ensures 2 <= v <= 14
  {
    match c
    case Two => 2
    case Three => 3
    case Four => 4
    case Five => 5
    case Six => 6
    case Seven => 7
    case Eight => 8
    case Nine => 9
    case Ten => 10
    case J => 11
    case Q => 12
    case K => 13
    case A => 14
  }

  /** The ranks in declaration order. */
  const Ranks: seq<Card> := [Two, Three, Four, Five, Six, Seven, Eight, Nine, Ten, J, Q, K, A]

  /** The ordering of cards is the declaration order, and no two ranks share a value. */
  lemma DeclarationOrder(i: int, j: int)
    requires 0 <= i < j < |Ranks|
    ensures Value(Ranks[i]) < Value(Ranks[j])
    ensures Value(Ranks[i]) == i + 2
  {
  }

  /** Comparing values is a strict total order on cards: exactly one of below, equal, above. */
  lemma TotalOrder(a: Card, b: Card)
    ensures a == b <==> Value(a) == Value(b)
    ensures a in Ranks
  {
  }

  /** The rank as the `Debug` impl writes it. */
  function Name(c: Card): string
  {
    match c
    case Two => "2"
    case Three => "3"
    case Four => "4"
    case Five => "5"
    case Six => "6"
    case Seven => "7"
    case Eight => "8"
    case Nine => "9"
    case Ten => "10"
    case J => "J"
    case Q => "Q"
    case K => "K"
    case A => "A"
  }

  /** The `match` on the rank text; None where the Rust code panics with "unknown card". */
  function RankFromName(s: string): (r: Option<Card>)
    ensures r.Some? ==> Name(r.value) == s
    ensures r.None? ==> forall c :: Name(c) != s
  {
    if s == "2" then Some(Two)
    else if s == "3" then Some(Three)
    else if s == "4" then Some(Four)
    else if s == "5" then Some(Five)
    else if s == "6" then Some(Six)
    else if s == "7" then Some(Seven)
    else if s == "8" then Some(Eight)
    else if s == "9" then Some(Nine)
    else if s == "10" then Some(Ten)
    else if s == "J" then Some(J)
    else if s == "Q" then Some(Q)
    else if s == "K" then Some(K)
    else if s == "A" then Some(A)
    else None
  }

  /** The text `Card::from_str` matches: a text longer than one character loses its last one (the suit). */
  function RankText(s: string): (r: string)
    ensures |s| > 1 ==> |r| == |s| - 1 && s == r + [s[|s| - 1]]
    ensures |s| <= 1 ==> r == s
  {
    if |s| > 1 then s[..|s| - 1] else s
  }

  /** `Card::from_str`. */
  function ParseCard(s: string): (r: Option<Card>)
    ensures r.Some? <==> exists c :: Name(c) == RankText(s)
    ensures r.Some? ==> Name(r.value) == RankText(s)
  {
    var r := RankFromName(RankText(s));
    assert r.Some? ==> Name(r.value) == RankText(s);
    r
  }

  /** A rank followed by any suit letter reads back as that rank. */
  lemma ParseWithSuit(c: Card, suit: char)
    ensures ParseCard(Name(c) + [suit]) == Some(c)
  {
    assert RankText(Name(c) + [suit]) == Name(c);
  }

  /**
   * A bare rank without a suit reads back only when its name is one character:
   * "10" loses its "0" and is then unknown.
   */
  lemma ParseBare(c: Card)
    ensures ParseCard(Name(c)) == (if c == Ten then None else Some(c))
  {
    if c == Ten {
      assert RankText(Name(c)) == "1";
    }
  }

  /** The two decks (front = index 0), the two stacks of cards in play, and the number of rounds won so far. */
  datatype Table = Table(deck1: seq<Card>, deck2: seq<Card>, stack1: seq<Card>, stack2: seq<Card>, round: nat)

  /** How the game stops: a draw ("PAT"), or a winner and the rounds played. */
  datatype Ending = Pat | Winner(player: nat, rounds: nat)

  /** All cards on the table. */
  function Cards(t: Table): multiset<Card>
  {
    multiset(t.deck1) + multiset(t.deck2) + multiset(t.stack1) + multiset(t.stack2)
  }

  /**
   * One player's three war cards: moved one at a time from the front of the
   * deck to the back of the stack; a deck that runs short is moved entirely
   * and the game is a draw.
   */
  function DrawWar(deck: seq<Card>, stack: seq<Card>): (r: (seq<Card>, seq<Card>, bool))
    ensures r.1 + r.0 == stack + deck
    ensures r.2 <==> |deck| >= 3
    ensures r.2 ==> |r.1| == |stack| + 3
    ensures !r.2 ==> r.0 == []
  {
    if |deck| < 3 then ([], stack + deck, false)
    else
      assert stack + deck == (stack + deck[..3]) + deck[3..];
      (deck[3..], stack + deck[..3], true)
  }

  /**
   * One pass of the game loop: the state it leaves and, when the game stops,
   * how. Each player turns up the front card; equal cards start a war,
   * otherwise the higher card takes both stacks, player 1's first.
   */
  function Turn(t: Table): (Table, Option<Ending>)
  {
    if |t.deck1| == 0 then
      (t, Some(if |t.stack1| + |t.stack2| > 0 then Pat else Winner(2, t.round)))
    else if |t.deck2| == 0 then
      (t.(deck1 := t.deck1[1..]), Some(if |t.stack1| + |t.stack2| > 0 then Pat else Winner(1, t.round)))
    else
      Showdown(t.deck1[0], t.deck2[0], Table(t.deck1[1..], t.deck2[1..], t.stack1 + [t.deck1[0]], t.stack2 + [t.deck2[0]], t.round))
  }

  /** The rest of a pass once both turned-up cards `c1` and `c2` lie on top of their stacks in `t`. */
  function Showdown(c1: Card, c2: Card, t: Table): (Table, Option<Ending>)
  {
    if c1 == c2 then
      var (e1, w1, ok1) := DrawWar(t.deck1, t.stack1);
      if !ok1 then (t.(deck1 := e1, stack1 := w1), Some(Pat))
      else
        var (e2, w2, ok2) := DrawWar(t.deck2, t.stack2);
        (Table(e1, e2, w1, w2, t.round), if ok2 then None else Some(Pat))
    else if Value(c2) > Value(c1) then
      (Table(t.deck1, t.deck2 + t.stack1 + t.stack2, [], [], t.round + 1), None)
    else
      (Table(t.deck1 + t.stack1 + t.stack2, t.deck2, [], [], t.round + 1), None)
  }

  lemma ShowdownConserves(c1: Card, c2: Card, t: Table)
    ensures Cards(Showdown(c1, c2, t).0) == Cards(t)
  {
    if c1 == c2 {
      WarConserves(c1, t);
    }
  }

  /** A war moves cards from each deck to its owner's stack only. */
  lemma WarConserves(c: Card, t: Table)
    ensures Cards(Showdown(c, c, t).0) == Cards(t)
  {
    var (e1, w1, ok1) := DrawWar(t.deck1, t.stack1);
    DrawWarConserves(t.deck1, t.stack1);
    if !ok1 {
      assert Showdown(c, c, t).0 == t.(deck1 := e1, stack1 := w1);
      Regroup(multiset(e1), multiset(t.deck2), multiset(w1), multiset(t.stack2));
      Regroup(multiset(t.deck1), multiset(t.deck2), multiset(t.stack1), multiset(t.stack2));
    } else {
      var (e2, w2, ok2) := DrawWar(t.deck2, t.stack2);
      DrawWarConserves(t.deck2, t.stack2);
      assert Showdown(c, c, t).0 == Table(e1, e2, w1, w2, t.round);
      Regroup(multiset(e1), multiset(e2), multiset(w1), multiset(w2));
      Regroup(multiset(t.deck1), multiset(t.deck2), multiset(t.stack1), multiset(t.stack2));
    }
  }

  /** The cards of a table, grouped by player. */
  lemma Regroup(d1: multiset<Card>, d2: multiset<Card>, s1: multiset<Card>, s2: multiset<Card>)
    ensures d1 + d2 + s1 + s2 == (s1 + d1) + (s2 + d2)
  {
  }

  /** Drawing the war cards only moves cards from the deck to the stack. */
  lemma DrawWarConserves(deck: seq<Card>, stack: seq<Card>)
    ensures multiset(DrawWar(deck, stack).1) + multiset(DrawWar(deck, stack).0) == multiset(stack) + multiset(deck)
  {
    var r := DrawWar(deck, stack);
    assert multiset(r.1 + r.0) == multiset(stack + deck);
  }

  /**
   * No card is created or lost by a pass, except that when player 2's deck is
   * empty the card player 1 just turned up is dropped as the game stops.
   */
  lemma TurnConserves(t: Table)
    ensures |t.deck1| > 0 && |t.deck2| == 0 ==> Cards(Turn(t).0) + multiset{t.deck1[0]} == Cards(t)
    ensures !(|t.deck1| > 0 && |t.deck2| == 0) ==> Cards(Turn(t).0) == Cards(t)
  {
    if |t.deck1| > 0 {
      assert t.deck1 == [t.deck1[0]] + t.deck1[1..];
      if |t.deck2| > 0 {
        assert t.deck2 == [t.deck2[0]] + t.deck2[1..];
        ShowdownConserves(t.deck1[0], t.deck2[0], Table(t.deck1[1..], t.deck2[1..], t.stack1 + [t.deck1[0]], t.stack2 + [t.deck2[0]], t.round));
      }
    }
  }

  /** The game stops exactly when a deck is empty at the start of a pass, or a war finds a deck short of cards. */
  lemma TurnStops(t: Table)
    ensures Turn(t).1.Some? <==>
      |t.deck1| == 0 || |t.deck2| == 0 || (t.deck1[0] == t.deck2[0] && (|t.deck1| < 4 || |t.deck2| < 4))
    ensures Turn(t).1.Some? && Turn(t).1.value.Winner? ==>
      Turn(t).1.value.rounds == t.round && t.stack1 == [] && t.stack2 == [] &&
      (if Turn(t).1.value.player == 1 then |t.deck2| == 0 < |t.deck1| else |t.deck1| == 0)
    ensures Turn(t).1 == Some(Pat) <==>
      ((|t.deck1| == 0 || |t.deck2| == 0) && |t.stack1| + |t.stack2| > 0) ||
      (|t.deck1| > 0 && |t.deck2| > 0 && t.deck1[0] == t.deck2[0] && (|t.deck1| < 4 || |t.deck2| < 4))
  {
  }

  /**
   * Unequal cards: the round counter goes up by one, the stacks are emptied
   * and the player with the higher card puts player 1's stack, then player
   * 2's, under their deck.
   */
  lemma TurnBattle(t: Table)
    requires |t.deck1| > 0 && |t.deck2| > 0 && t.deck1[0] != t.deck2[0]
    ensures Turn(t).1 == None
    ensures Turn(t).0.round == t.round + 1 && Turn(t).0.stack1 == [] && Turn(t).0.stack2 == []
    ensures var won := t.stack1 + [t.deck1[0]] + t.stack2 + [t.deck2[0]];
      if Value(t.deck1[0]) > Value(t.deck2[0])
      then Turn(t).0.deck1 == t.deck1[1..] + won && Turn(t).0.deck2 == t.deck2[1..]
      else Turn(t).0.deck2 == t.deck2[1..] + won && Turn(t).0.deck1 == t.deck1[1..]
  {
    TotalOrder(t.deck1[0], t.deck2[0]);
  }

  /**
   * Equal cards with enough left: both cards go on their owner's stack
   * followed by the owner's next three cards, and the round counter stays.
   */
  lemma TurnWar(t: Table)
    requires |t.deck1| >= 4 && |t.deck2| >= 4 && t.deck1[0] == t.deck2[0]
    ensures Turn(t).1 == None
    ensures Turn(t).0 == Table(t.deck1[4..], t.deck2[4..], t.stack1 + t.deck1[..4], t.stack2 + t.deck2[..4], t.round)
  {
    assert t.stack1 + t.deck1[..4] == t.stack1 + [t.deck1[0]] + t.deck1[1..][..3];
    assert t.stack2 + t.deck2[..4] == t.stack2 + [t.deck2[0]] + t.deck2[1..][..3];
  }

  /** The game loop run for at most `fuel` passes: the last state and the ending, None if the fuel ran out. */
  function Run(t: Table, fuel: nat): (Table, Option<Ending>)
    decreases fuel
  {
    if fuel == 0 then (t, None)
    else
      var (next, ending) := Turn(t);
      if ending.Some? then (next, ending) else Run(next, fuel - 1)
  }

  /** Both stacks hold the same number of cards: both empty, or both grown by the same wars. */
  predicate Balanced(t: Table)
  {
    |t.stack1| == |t.stack2|
  }

  /** Every pass that does not stop the game keeps the stacks balanced. */
  lemma TurnBalanced(t: Table)
    requires Balanced(t)
    ensures Turn(t).1.None? ==> Balanced(Turn(t).0)
  {
  }

  /**
   * What a game that ends with a winner leaves: the winner holds every card
   * dealt (player 1 minus the card they turned up before player 2's empty deck
   * was noticed), the other deck and both stacks are empty, and the winner is
   * credited with the rounds counted.
   */
  predicate WinnerHoldsAll(dealt: multiset<Card>, last: Table, e: Ending)
  {
    e.Winner? && last.stack1 == [] && last.stack2 == [] && e.rounds == last.round &&
    if e.player == 1
    then last.deck2 == [] && multiset(last.deck1) <= dealt && |dealt| == |last.deck1| + 1
    else e.player == 2 && last.deck1 == [] && dealt == multiset(last.deck2)
  }

  lemma {:induction false} WinnerTakesAll(t: Table, fuel: nat)
    requires Run(t, fuel).1.Some? && Run(t, fuel).1.value.Winner?
    ensures WinnerHoldsAll(Cards(t), Run(t, fuel).0, Run(t, fuel).1.value)
    decreases fuel
  {
    WinnerStep(t, fuel);
    if Turn(t).1.None? {
      WinnerTakesAll(Turn(t).0, fuel - 1);
      WinnerCarried(t, fuel);
    }
  }

  /**
   * A run that ends with a winner has fuel; either its first pass declares
   * the winner, who then holds every card, or the rest of the run ends with a winner.
   */
  lemma WinnerStep(t: Table, fuel: nat)
    requires Run(t, fuel).1.Some? && Run(t, fuel).1.value.Winner?
    ensures fuel > 0
    ensures Turn(t).1.Some? ==> WinnerHoldsAll(Cards(t), Run(t, fuel).0, Run(t, fuel).1.value)
    ensures Turn(t).1.None? ==> Run(Turn(t).0, fuel - 1).1.Some? && Run(Turn(t).0, fuel - 1).1.value.Winner?
  {
    if Turn(t).1.Some? {
      TurnWinner(t);
    } else {
      PassOn(t, fuel);
    }
  }

  /** What the winner of the rest of the run holds, they hold from the state before a pass that does not stop the game. */
  lemma WinnerCarried(t: Table, fuel: nat)
    requires fuel > 0 && Turn(t).1.None?
    requires Run(Turn(t).0, fuel - 1).1.Some? && Run(Turn(t).0, fuel - 1).1.value.Winner?
    requires WinnerHoldsAll(Cards(Turn(t).0), Run(Turn(t).0, fuel - 1).0, Run(Turn(t).0, fuel - 1).1.value)
    ensures Run(t, fuel).1.Some? && Run(t, fuel).1.value.Winner?
    ensures WinnerHoldsAll(Cards(t), Run(t, fuel).0, Run(t, fuel).1.value)
  {
    PassOn(t, fuel);
  }

  /** With fuel left, the run is the first pass when it stops the game, and otherwise the run from the state it leaves. */
  lemma RunPass(t: Table, fuel: nat)
    requires fuel > 0
    ensures Turn(t).1.Some? ==> Run(t, fuel) == Turn(t)
    ensures Turn(t).1.None? ==> Run(t, fuel) == Run(Turn(t).0, fuel - 1)
  {
  }

  /** The run depends on the fuel's value only. */
  lemma RunFuel(t: Table, fuel: nat, fuel': nat)
    requires fuel == fuel'
    ensures Run(t, fuel) == Run(t, fuel')
  {
  }

  /** A pass that does not stop the game hands the rest of the run, and every card, to the next state. */
  lemma PassOn(t: Table, fuel: nat)
    requires fuel > 0 && Turn(t).1.None?
    ensures Run(t, fuel) == Run(Turn(t).0, fuel - 1)
    ensures Cards(Turn(t).0) == Cards(t)
  {
    TurnConserves(t);
  }

  /** A pass that declares a winner leaves the winner holding every card dealt. */
  lemma TurnWinner(t: Table)
    requires Turn(t).1.Some? && Turn(t).1.value.Winner?
    ensures WinnerHoldsAll(Cards(t), Turn(t).0, Turn(t).1.value)
  {
    TurnConserves(t);
    TurnStops(t);
  }

  /** The rounds a winner is credited with are the passes with unequal cards, so never more than the passes run. */
  lemma {:induction false} RoundsBounded(t: Table, fuel: nat)
    ensures Run(t, fuel).0.round <= t.round + fuel
    decreases fuel
  {
    if fuel > 0 {
      var (next, ending) := Turn(t);
      if ending.None? {
        RoundsBounded(next, fuel - 1);
      }
    }
  }

  /** The four queues of `main`, updated in place. */
  class Battle {
    var deck1: seq<Card>
    var deck2: seq<Card>
    var stack1: seq<Card>
    var stack2: seq<Card>
    var round: nat

    function State(): Table
      reads this
    {
      Table(deck1, deck2, stack1, stack2, round)
    }

    /** The dealt decks, empty stacks, no round played. */
    constructor(cards1: seq<Card>, cards2: seq<Card>)
      ensures State() == Table(cards1, cards2, [], [], 0)
    {
      deck1, deck2 := cards1, cards2;
      stack1, stack2 := [], [];
      round := 0;
    }

    /** One pass of the loop body of `main`. */
    method PlayTurn() returns (ending: Option<Ending>)
      modifies this
      ensures (State(), ending) == Turn(old(State()))
    {
      if |deck1| == 0 {
        return Some(if |stack1| + |stack2| > 0 then Pat else Winner(2, round));
      }
      var c1 := deck1[0];
      deck1 := deck1[1..];
      if |deck2| == 0 {
        return Some(if |stack1| + |stack2| > 0 then Pat else Winner(1, round));
      }
      var c2 := deck2[0];
      deck2 := deck2[1..];
      stack1 := stack1 + [c1];
      stack2 := stack2 + [c2];
      if c1 == c2 {
        var ok := DrawWar1();
        if !ok {
          return Some(Pat);
        }
        ok := DrawWar2();
        if !ok {
          return Some(Pat);
        }
        ending := None;
      } else {
        round := round + 1;
        if Value(c2) > Value(c1) {
          deck2 := Gather(deck2);
        } else {
          deck1 := Gather(deck1);
        }
        ending := None;
      }
    }

    /** Player 1's three war cards, moved one by one. */
    method DrawWar1() returns (ok: bool)
      modifies this
      ensures (deck1, stack1, ok) == DrawWar(old(deck1), old(stack1))
      ensures deck2 == old(deck2) && stack2 == old(stack2) && round == old(round)
    {
      for i := 0 to 3
        invariant stack1 + deck1 == old(stack1) + old(deck1)
        invariant |stack1| == |old(stack1)| + i
        invariant deck2 == old(deck2) && stack2 == old(stack2) && round == old(round)
      {
        if |deck1| == 0 {
          assert stack1 == stack1 + deck1;
          return false;
        }
        stack1 := stack1 + [deck1[0]];
        deck1 := deck1[1..];
      }
      ghost var all := old(stack1) + old(deck1);
      assert stack1 == all[..|stack1|] && deck1 == all[|stack1|..];
      assert old(deck1)[3..] == all[|stack1|..];
      assert old(stack1) + old(deck1)[..3] == all[..|stack1|];
      ok := true;
    }

    /** Player 2's three war cards, moved one by one. */
    method DrawWar2() returns (ok: bool)
      modifies this
      ensures (deck2, stack2, ok) == DrawWar(old(deck2), old(stack2))
      ensures deck1 == old(deck1) && stack1 == old(stack1) && round == old(round)
    {
      for i := 0 to 3
        invariant stack2 + deck2 == old(stack2) + old(deck2)
        invariant |stack2| == |old(stack2)| + i
        invariant deck1 == old(deck1) && stack1 == old(stack1) && round == old(round)
      {
        if |deck2| == 0 {
          assert stack2 == stack2 + deck2;
          return false;
        }
        stack2 := stack2 + [deck2[0]];
        deck2 := deck2[1..];
      }
      ghost var all := old(stack2) + old(deck2);
      assert stack2 == all[..|stack2|] && deck2 == all[|stack2|..];
      assert old(deck2)[3..] == all[|stack2|..];
      assert old(stack2) + old(deck2)[..3] == all[..|stack2|];
      ok := true;
    }

    /** The winner's deck with player 1's stack, then player 2's, popped onto its back one card at a time. */
    method Gather(deck: seq<Card>) returns (won: seq<Card>)
      modifies this
      ensures won == deck + old(stack1) + old(stack2)
      ensures stack1 == [] && stack2 == []
      ensures deck1 == old(deck1) && deck2 == old(deck2) && round == old(round)
    {
      won := deck;
      while |stack1| > 0
        invariant won + stack1 == deck + old(stack1)
        invariant stack2 == old(stack2) && deck1 == old(deck1) && deck2 == old(deck2) && round == old(round)
      {
        won := won + [stack1[0]];
        stack1 := stack1[1..];
      }
      while |stack2| > 0
        invariant won + stack2 == deck + old(stack1) + old(stack2)
        invariant stack1 == [] && deck1 == old(deck1) && deck2 == old(deck2) && round == old(round)
      {
        won := won + [stack2[0]];
        stack2 := stack2[1..];
      }
    }

    /** The `loop` of `main`, for at most `fuel` passes. */
    method Play(fuel: nat) returns (ending: Option<Ending>)
      modifies this
      ensures (State(), ending) == Run(old(State()), fuel)
    {
      ending := None;
      var left := fuel;
      while left > 0
        invariant Run(old(State()), fuel) == Run(State(), left)
        invariant ending == None
      {
        ghost var before, was := State(), left;
        ending := PlayTurn();
        RunPass(before, was);
        left := left - 1;
        RunFuel(State(), was - 1, left);
        if ending.Some? {
          return;
        }
      }
    }
  }

  /** The whole game from the dealt decks: who wins holds every card, and a pat or a winner is what `Run` reports. */
  method PlayGame(cards1: seq<Card>, cards2: seq<Card>, fuel: nat) returns (ending: Option<Ending>)
    ensures ending == Run(Table(cards1, cards2, [], [], 0), fuel).1
    ensures ending.Some? && ending.value.Winner? ==> ending.value.rounds <= fuel
    ensures ending.Some? && ending.value.Winner? ==>
      WinnerHoldsAll(multiset(cards1) + multiset(cards2), Run(Table(cards1, cards2, [], [], 0), fuel).0, ending.value)
  {
    var game := new Battle(cards1, cards2);
    ending := game.Play(fuel);
    RoundsBounded(Table(cards1, cards2, [], [], 0), fuel);
    if ending.Some? && ending.value.Winner? {
      WinnerTakesAll(Table(cards1, cards2, [], [], 0), fuel);
    }
  }
}
