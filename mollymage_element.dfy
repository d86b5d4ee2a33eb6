/** The mollymage `Element` enum: the board characters of that game, the
    character-to-element lookup `valueOf`, and the category arrays with their
    membership predicates. */
module Mollymage {
  import opened Failures

  /** The 27 constants, in declaration order. */
  datatype Element =
    | PotionTimer5 | PotionTimer4 | PotionTimer3 | PotionTimer2 | PotionTimer1
    | Blast
    | Wall | TreasureBox | OpeningTreasureBox
    | Ghost | DeadGhost
    | PotionBlastRadiusIncrease | PotionCountIncrease | PotionRemoteControl
    | PotionImmune | PoisonThrower | PotionExploder
    | None
    | Hero | PotionHero | DeadHero
    | OtherHero | OtherPotionHero | OtherDeadHero
    | EnemyHero | EnemyPotionHero | EnemyDeadHero

  /** `Element.values()`: every constant once, in declaration order. */
  const Values: seq<Element> := [
    PotionTimer5, PotionTimer4, PotionTimer3, PotionTimer2, PotionTimer1,
    Blast,
    Wall, TreasureBox, OpeningTreasureBox,
    Ghost, DeadGhost,
    PotionBlastRadiusIncrease, PotionCountIncrease, PotionRemoteControl,
    PotionImmune, PoisonThrower, PotionExploder,
    Element.None,
    Hero, PotionHero, DeadHero,
    OtherHero, OtherPotionHero, OtherDeadHero,
    EnemyHero, EnemyPotionHero, EnemyDeadHero]

  /** `ch()`: the character each constant is drawn with. */
  function Ch(e: Element): char
  {
    match e
    case PotionTimer5 => '5'
    case PotionTimer4 => '4'
    case PotionTimer3 => '3'
    case PotionTimer2 => '2'
    case PotionTimer1 => '1'
    case Blast => '\U{0489}'
    case Wall => '\U{263C}'
    case TreasureBox => '#'
    case OpeningTreasureBox => 'H'
    case Ghost => '&'
    case DeadGhost => 'x'
    case PotionBlastRadiusIncrease => '+'
    case PotionCountIncrease => 'c'
    case PotionRemoteControl => 'r'
    case PotionImmune => 'i'
    case PoisonThrower => 'T'
    case PotionExploder => 'A'
    case None => ' '
    case Hero => '\U{263A}'
    case PotionHero => '\U{263B}'
    case DeadHero => '\U{0460}'
    case OtherHero => '\U{2665}'
    case OtherPotionHero => '\U{2660}'
    case OtherDeadHero => '\U{2663}'
    case EnemyHero => '\U{00F6}'
    case EnemyPotionHero => '\U{00D6}'
    case EnemyDeadHero => '\U{00F8}'
  }

  /** The table read the other way: the element drawn with `c`, or the
      `IllegalArgumentException` for a character no element uses. */
  function Lookup(c: char): Result<Element>
  {
    match c
    case '5' => Success(PotionTimer5)
    case '4' => Success(PotionTimer4)
    case '3' => Success(PotionTimer3)
    case '2' => Success(PotionTimer2)
    case '1' => Success(PotionTimer1)
    case '\U{0489}' => Success(Blast)
    case '\U{263C}' => Success(Wall)
    case '#' => Success(TreasureBox)
    case 'H' => Success(OpeningTreasureBox)
    case '&' => Success(Ghost)
    case 'x' => Success(DeadGhost)
    case '+' => Success(PotionBlastRadiusIncrease)
    case 'c' => Success(PotionCountIncrease)
    case 'r' => Success(PotionRemoteControl)
    case 'i' => Success(PotionImmune)
    case 'T' => Success(PoisonThrower)
    case 'A' => Success(PotionExploder)
    case ' ' => Success(Element.None)
    case '\U{263A}' => Success(Hero)
    case '\U{263B}' => Success(PotionHero)
    case '\U{0460}' => Success(DeadHero)
    case '\U{2665}' => Success(OtherHero)
    case '\U{2660}' => Success(OtherPotionHero)
    case '\U{2663}' => Success(OtherDeadHero)
    case '\U{00F6}' => Success(EnemyHero)
    case '\U{00D6}' => Success(EnemyPotionHero)
    case '\U{00F8}' => Success(EnemyDeadHero)
    case _ => Failure(NoSuchElement)
  }

  /** Every element's character leads back to it: the 27 characters are
      distinct. */
  lemma LookupCh(e: Element)
    ensures Lookup(Ch(e)) == Success(e)
  {
  }

  /** A character the table knows is the character of the element it gives. */
  lemma ChLookup(c: char)
    ensures Lookup(c).Success? ==> Ch(Lookup(c).value) == c
    ensures Lookup(c).Failure? ==> Lookup(c).error == NoSuchElement && forall e :: Ch(e) != c
  {
    if Lookup(c).Failure? {
      forall e ensures Ch(e) != c {
        LookupCh(e);
      }
    }
  }

  /** No two elements share a character. */
  lemma ChInjective(e1: Element, e2: Element)
    requires Ch(e1) == Ch(e2)
    ensures e1 == e2
  {
    LookupCh(e1);
    LookupCh(e2);
  }

  /** `ordinal()`: the position of the constant in the declaration. */
  function Ordinal(e: Element): nat
  {
    match e
    case PotionTimer5 => 0 case PotionTimer4 => 1 case PotionTimer3 => 2 case PotionTimer2 => 3 case PotionTimer1 => 4
    case Blast => 5 case Wall => 6 case TreasureBox => 7 case OpeningTreasureBox => 8 case Ghost => 9 case DeadGhost => 10
    case PotionBlastRadiusIncrease => 11 case PotionCountIncrease => 12 case PotionRemoteControl => 13
    case PotionImmune => 14 case PoisonThrower => 15 case PotionExploder => 16 case None => 17
    case Hero => 18 case PotionHero => 19 case DeadHero => 20
    case OtherHero => 21 case OtherPotionHero => 22 case OtherDeadHero => 23
    case EnemyHero => 24 case EnemyPotionHero => 25 case EnemyDeadHero => 26
  }

  /** `values()` lists every element: at the position of its ordinal. */
  lemma ValuesComplete(e: Element)
    ensures Ordinal(e) < |Values| && Values[Ordinal(e)] == e
  {
  }

  /** Each position of `values()` holds the element of that ordinal. */
  lemma ValuesOrdinals(i: int)
    requires 0 <= i < |Values|
    ensures Ordinal(Values[i]) == i
  {
  }

  /** Hence no element appears twice in `values()`. */
  lemma ValuesDistinct(i: int, j: int)
    requires 0 <= i < j < |Values|
    ensures Values[i] != Values[j]
  {
    ValuesOrdinals(i);
    ValuesOrdinals(j);
  }

  /** `valueOf(ch)`: the first of `values()` drawn with `ch`; throws when there
      is none. */
  method ValueOf(c: char) returns (r: Result<Element>)
    ensures r == Lookup(c)
    ensures r.Success? ==> Ch(r.value) == c
    ensures r.Failure? ==> forall e :: Ch(e) != c
  {
    ChLookup(c);
    for i := 0 to |Values|
      invariant forall j :: 0 <= j < i ==> Ch(Values[j]) != c
    {
      if Ch(Values[i]) == c {
        LookupCh(Values[i]);
        return Success(Values[i]);
      }
    }
    if Lookup(c).Success? {
      ValuesComplete(Lookup(c).value);
      assert Values[Ordinal(Lookup(c).value)] == Lookup(c).value;
    }
    r := Failure(NoSuchElement);
  }

  /** `toString()`: the element's character as a one-character string, which
      `valueOf` reads back. */
  function ToString(e: Element): (s: string)
    ensures |s| == 1 && Lookup(s[0]) == Success(e)
  {
    LookupCh(e);
    [Ch(e)]
  }

  /** `POTIONS_CHARS`. */
  const PotionsChars: string := "12345"

  /** The characters of `POTIONS_CHARS` are exactly those of the five potion
      timers. */
  lemma PotionsCharsAreTimers(c: char)
    ensures c in PotionsChars <==>
      Lookup(c).Success? && Lookup(c).value in {PotionTimer1, PotionTimer2, PotionTimer3, PotionTimer4, PotionTimer5}
  {
  }

  /** The category arrays, as the sets of their entries: `is*` only asks
      for membership. */
  const Heroes: set<Element> := {Hero, PotionHero, DeadHero}
  const EnemyHeroes: set<Element> := {EnemyHero, EnemyPotionHero, EnemyDeadHero}
  const OtherHeroes: set<Element> := {OtherHero, OtherPotionHero, OtherDeadHero}
  const Potions: set<Element> := {PotionTimer1, PotionTimer2, PotionTimer3, PotionTimer4, PotionTimer5,
                                  PotionHero, OtherPotionHero, EnemyPotionHero}
  const Perks: set<Element> := {PotionCountIncrease, PotionRemoteControl, PotionImmune,
                                PotionBlastRadiusIncrease, PoisonThrower, PotionExploder}
  const Ghosts: set<Element> := {Ghost, DeadGhost}
  const Walls: set<Element> := {Wall}
  const TreasureBoxes: set<Element> := {TreasureBox, OpeningTreasureBox}
  const Blasts: set<Element> := {Blast}
  /** `barriers()` (the array lists OTHER_POTION_HERO and ENEMY_POTION_HERO
      twice). */
  const Barriers: set<Element> := {
    Ghost, DeadGhost, Wall,
    PotionTimer1, PotionTimer2, PotionTimer3, PotionTimer4, PotionTimer5,
    PotionHero, OtherPotionHero, EnemyPotionHero,
    TreasureBox, OpeningTreasureBox,
    OtherHero, OtherPotionHero, OtherDeadHero,
    EnemyHero, EnemyPotionHero, EnemyDeadHero}

  /** The `isX()` predicates: membership in the category array. */
  predicate IsPotion(e: Element) { e in Potions }
  predicate IsHero(e: Element) { e in Heroes }
  predicate IsEnemyHero(e: Element) { e in EnemyHeroes }
  predicate IsOtherHero(e: Element) { e in OtherHeroes }
  predicate IsPerk(e: Element) { e in Perks }
  predicate IsGhost(e: Element) { e in Ghosts }
  predicate IsWall(e: Element) { e in Walls }
  predicate IsTreasureBox(e: Element) { e in TreasureBoxes }
  predicate IsBoom(e: Element) { e in Blasts }

  /** Membership in each category, element by element. */
  lemma InBarriers(e: Element)
    ensures e in Barriers <==>
      (e == Ghost || e == DeadGhost || e == Wall
       || e == PotionTimer1 || e == PotionTimer2 || e == PotionTimer3 || e == PotionTimer4 || e == PotionTimer5
       || e == PotionHero || e == OtherPotionHero || e == EnemyPotionHero || e == TreasureBox || e == OpeningTreasureBox
       || e == OtherHero || e == OtherDeadHero || e == EnemyHero || e == EnemyDeadHero)
  {
  }

  /** A potion is a timer or a hero of any side standing on its own potion. */
  lemma PotionsAre(e: Element)
    ensures IsPotion(e) <==>
      (e == PotionTimer1 || e == PotionTimer2 || e == PotionTimer3 || e == PotionTimer4 || e == PotionTimer5
       || e == PotionHero || e == OtherPotionHero || e == EnemyPotionHero)
  {
  }

  lemma InHeroes(e: Element)
    ensures IsHero(e) <==> (e == Hero || e == PotionHero || e == DeadHero)
    ensures IsEnemyHero(e) <==> (e == EnemyHero || e == EnemyPotionHero || e == EnemyDeadHero)
    ensures IsOtherHero(e) <==> (e == OtherHero || e == OtherPotionHero || e == OtherDeadHero)
  {
  }

  lemma InPerks(e: Element)
    ensures IsPerk(e) <==>
      (e == PotionCountIncrease || e == PotionRemoteControl || e == PotionImmune
       || e == PotionBlastRadiusIncrease || e == PoisonThrower || e == PotionExploder)
  {
  }

  lemma InObstacles(e: Element)
    ensures IsGhost(e) <==> (e == Ghost || e == DeadGhost)
    ensures IsWall(e) <==> e == Wall
    ensures IsTreasureBox(e) <==> (e == TreasureBox || e == OpeningTreasureBox)
    ensures IsBoom(e) <==> e == Blast
  {
  }
  /** The barriers are exactly the potions, ghosts, walls, treasure boxes and
      the heroes of the other players. */
  lemma BarriersAre(e: Element)
    ensures e in Barriers <==>
      IsPotion(e) || IsGhost(e) || IsWall(e) || IsTreasureBox(e) || IsOtherHero(e) || IsEnemyHero(e)
  {
    InBarriers(e);
    PotionsAre(e);
    InHeroes(e);
    InObstacles(e);
  }

  /** The own hero when not on a potion, the void, the perks and the blast
      are what is not a barrier. */
  lemma NotBarriers(e: Element)
    ensures e !in Barriers <==> e in {Hero, DeadHero, Element.None, Blast} || IsPerk(e)
  {
    InBarriers(e);
    InPerks(e);
  }

  /** Every element but the void falls in some category; the three hero
      groups do not overlap. */
  lemma CategoriesCover(e: Element)
    ensures e != Element.None <==>
      IsPotion(e) || IsHero(e) || IsEnemyHero(e) || IsOtherHero(e) || IsPerk(e)
      || IsGhost(e) || IsWall(e) || IsTreasureBox(e) || IsBoom(e)
    ensures !(IsHero(e) && IsEnemyHero(e)) && !(IsHero(e) && IsOtherHero(e)) && !(IsEnemyHero(e) && IsOtherHero(e))
  {
    PotionsAre(e);
    InHeroes(e);
    InPerks(e);
    InObstacles(e);
  }
}
