/**
 The condition evaluator of the custom dialogue topics (WODTalkWindow
 `EvaluateConditions` and `EvaluateNumericComparison`).

 A custom topic carries up to three condition triples
 (variable, comparison, value). A triple with a blank part is skipped; every
 other triple must hold for the topic to be eligible. The value may list
 several `|`-separated alternatives. `==` holds when the variable matches any
 alternative ignoring case, `!=` when it matches none, and the ordering
 operators hold only when every alternative is an integer and the comparison
 holds against each of them. Evaluation fails closed: a missing variable, a
 non-integer operand or an unknown operator makes the topic ineligible.
 */
module Conditions {
  import opened Text

  /** One condition triple, exactly as read from the topic table. */
  datatype Condition = Condition(variable: string, comparison: string, value: string)

  datatype Order = Less | Greater | LessOrEqual | GreaterOrEqual

  datatype Operator = Equal | NotEqual | Ordering(order: Order)

  /** Why a triple made its topic ineligible without being simply false. */
  datatype Fault = MissingVariable(name: string) | NotAnInteger | UnknownOperator(op: string)

  datatype Verdict = Skipped | Met | NotMet | Failed(fault: Fault) {
    /** The evaluator moves on to the next triple. */
    predicate Passes() {
      Skipped? || Met?
    }
  }

  /** The facts gathered about the world, each in its `ToString()` form. */
  type Facts = map<string, string>

  /** The variable name that is drawn at random instead of looked up. */
  const RandomNumber: string := "Random Number"

  /** `System.Random.Next(1, 101)` draws from 1 to 100. */
  ghost predicate RollsInRange(rolls: nat -> int) {
    forall slot :: 1 <= rolls(slot) <= 100
  }

  /** The operators the evaluator's switch recognises, matched exactly. */
  function ParseOperator(s: string): (r: Option<Operator>)
    ensures r.Some? <==> s in {"==", "!=", "<", ">", "<=", ">="}
  {
    if s == "==" then Some(Equal)
    else if s == "!=" then Some(NotEqual)
    else if s == "<" then Some(Ordering(Less))
    else if s == ">" then Some(Ordering(Greater))
    else if s == "<=" then Some(Ordering(LessOrEqual))
    else if s == ">=" then Some(Ordering(GreaterOrEqual))
    else None
  }

  /** A triple with any blank part is skipped. */
  predicate IsSkipped(c: Condition) {
    IsBlank(c.variable) || IsBlank(c.comparison) || IsBlank(c.value)
  }

  /** The string form of the variable: the roll for "Random Number", otherwise
      the gathered fact, if there is one. */
  function Resolve(name: string, facts: Facts, roll: int): (r: Option<string>)
    ensures name == RandomNumber ==> r == Some(IntToString(roll))
    ensures name != RandomNumber ==> (r.Some? <==> name in facts)
    ensures name != RandomNumber && name in facts ==> r == Some(facts[name])
  {
    if name == RandomNumber then Some(IntToString(roll))
    else if name in facts then Some(facts[name])
    else None
  }

  /** The trimmed `|`-separated alternatives of a value. */
  function Alternatives(value: string): seq<string> {
    TrimEach(Split(value, '|'))
  }

  /** `EvaluateNumericComparison` for the four ordering operators. */
  function Compare(x: int, order: Order, y: int): bool {
    match order
    case Less => x < y
    case Greater => x > y
    case LessOrEqual => x <= y
    case GreaterOrEqual => x >= y
  }

  function MatchesAny(alternatives: seq<string>, v: string): (r: bool)
    ensures r <==> exists k :: 0 <= k < |alternatives| && EqualsIgnoreCase(alternatives[k], v)
  {
    if |alternatives| == 0 then false
    else EqualsIgnoreCase(alternatives[0], v) || MatchesAny(alternatives[1..], v)
  }

  /** `f` applied to every element, or `None` as soon as it fails on one. */
  function TryAll<T, U>(xs: seq<T>, f: T -> Option<U>): (r: Option<seq<U>>)
    ensures r.Some? <==> forall k :: 0 <= k < |xs| ==> f(xs[k]).Some?
    ensures r.Some? ==> |r.value| == |xs|
    ensures r.Some? ==> forall k :: 0 <= k < |xs| ==> f(xs[k]) == Some(r.value[k])
  {
    if |xs| == 0 then Some([])
    else
      var head := f(xs[0]);
      var tail := TryAll(xs[1..], f);
      assert forall k :: 1 <= k < |xs| ==> xs[1..][k - 1] == xs[k];
      if head.Some? && tail.Some? then Some([head.value] + tail.value) else None
  }

  /** Parses every alternative, or none if any of them is not an integer. */
  function ParseAll(alternatives: seq<string>): (r: Option<seq<int>>)
    ensures r.Some? <==> forall k :: 0 <= k < |alternatives| ==> ParseInt(alternatives[k]).Some?
    ensures r.Some? ==> |r.value| == |alternatives|
    ensures r.Some? ==> forall k :: 0 <= k < |alternatives| ==> ParseInt(alternatives[k]) == Some(r.value[k])
  {
    TryAll(alternatives, ParseInt)
  }

  function HoldsForAll(x: int, order: Order, ys: seq<int>): (r: bool)
    ensures r <==> forall k :: 0 <= k < |ys| ==> Compare(x, order, ys[k])
  {
    |ys| == 0 || (Compare(x, order, ys[0]) && HoldsForAll(x, order, ys[1..]))
  }

  /** `==`: met when some alternative equals the variable, ignoring case. */
  function EqualityVerdict(v: string, alternatives: seq<string>): (r: Verdict)
    ensures r.Met? || r.NotMet?
    ensures r.Met? <==> exists k :: 0 <= k < |alternatives| && EqualsIgnoreCase(alternatives[k], v)
  {
    if MatchesAny(alternatives, v) then Met else NotMet
  }

  /** `!=`: met when no alternative equals the variable, ignoring case. */
  function InequalityVerdict(v: string, alternatives: seq<string>): (r: Verdict)
    ensures r.Met? || r.NotMet?
    ensures r.Met? <==> forall k :: 0 <= k < |alternatives| ==> !EqualsIgnoreCase(alternatives[k], v)
  {
    if !MatchesAny(alternatives, v) then Met else NotMet
  }

  /** `<`, `>`, `<=`, `>=`: a fault unless the variable and every alternative
      are integers; then met when the comparison holds against all of them. */
  function OrderingVerdict(order: Order, v: string, alternatives: seq<string>): (r: Verdict)
    ensures r.Met? || r.NotMet? || r == Failed(NotAnInteger)
    ensures r == Failed(NotAnInteger) <==>
              ParseInt(v).None? || exists k :: 0 <= k < |alternatives| && ParseInt(alternatives[k]).None?
    ensures r.Met? <==>
              && ParseInt(v).Some?
              && forall k :: 0 <= k < |alternatives| ==>
                   ParseInt(alternatives[k]).Some?
                   && Compare(ParseInt(v).value, order, ParseInt(alternatives[k]).value)
  {
    match (ParseInt(v), ParseAll(alternatives))
    case (Some(x), Some(ys)) => if HoldsForAll(x, order, ys) then Met else NotMet
    case _ => Failed(NotAnInteger)
  }

  /** The comparison switch on a resolved variable `v` against the trimmed
      alternatives: an unrecognised operator is a fault. */
  function Apply(comparison: string, v: string, alternatives: seq<string>): (r: Verdict)
    ensures !r.Skipped? && (r.Failed? ==> r.fault.UnknownOperator? || r.fault.NotAnInteger?)
    ensures r == Failed(UnknownOperator(comparison)) <==> ParseOperator(comparison).None?
    ensures ParseOperator(comparison) == Some(Equal) ==> r == EqualityVerdict(v, alternatives)
    ensures ParseOperator(comparison) == Some(NotEqual) ==> r == InequalityVerdict(v, alternatives)
    ensures ParseOperator(comparison).Some? && ParseOperator(comparison).value.Ordering? ==>
              r == OrderingVerdict(ParseOperator(comparison).value.order, v, alternatives)
  {
    match ParseOperator(comparison)
    case None => Failed(UnknownOperator(comparison))
    case Some(Equal) => EqualityVerdict(v, alternatives)
    case Some(NotEqual) => InequalityVerdict(v, alternatives)
    case Some(Ordering(order)) => OrderingVerdict(order, v, alternatives)
  }

  /** The verdict on one triple, in the order the source checks: blank parts,
      then the variable, then the comparison. */
  function Evaluate(c: Condition, facts: Facts, roll: int): (r: Verdict)
    requires 1 <= roll <= 100
    ensures r.Skipped? <==> IsSkipped(c)
    ensures r == Failed(MissingVariable(c.variable)) <==>
              !IsSkipped(c) && c.variable != RandomNumber && c.variable !in facts
    ensures r.Failed? && r.fault.MissingVariable? ==> r.fault.name == c.variable
  {
    if IsSkipped(c) then Skipped
    else
      match Resolve(c.variable, facts, roll)
      case None => Failed(MissingVariable(c.variable))
      case Some(v) => Apply(c.comparison, v, Alternatives(c.value))
  }

  /** Whether each triple passes, under its own slot's roll. */
  function Verdicts(conditions: seq<Condition>, facts: Facts, rolls: nat -> int): (r: seq<bool>)
    requires RollsInRange(rolls)
    ensures |r| == |conditions|
    ensures forall i :: 0 <= i < |conditions| ==> r[i] == Passes(conditions[i], facts, rolls(i))
  {
    seq(|conditions|, i requires 0 <= i < |conditions| => Passes(conditions[i], facts, rolls(i)))
  }

  /** Whether every flag from `from` on is set. */
  function AllFrom(flags: seq<bool>, from: nat): (r: bool)
    requires from <= |flags|
    ensures r <==> forall i :: from <= i < |flags| ==> flags[i]
    decreases |flags| - from
  {
    from == |flags| || (flags[from] && AllFrom(flags, from + 1))
  }

  /** The topic is eligible when every triple is skipped or met. */
  function Eligible(conditions: seq<Condition>, facts: Facts, rolls: nat -> int): (r: bool)
    requires RollsInRange(rolls)
    ensures r <==> forall i :: 0 <= i < |conditions| ==> Passes(conditions[i], facts, rolls(i))
  {
    AllFrom(Verdicts(conditions, facts, rolls), 0)
  }

  /** Whether the evaluator moves past this triple. */
  predicate Passes(c: Condition, facts: Facts, roll: int)
    requires 1 <= roll <= 100
  {
    Evaluate(c, facts, roll).Passes()
  }

  /** The source's loop over the condition slots, returning at the first
      triple that is not met. */
  method EvaluateConditions(conditions: seq<Condition>, facts: Facts, rolls: nat -> int) returns (eligible: bool)
    requires RollsInRange(rolls)
    ensures eligible == Eligible(conditions, facts, rolls)
  {
    var i := 0;
    while i < |conditions|
      invariant 0 <= i <= |conditions|
      invariant Eligible(conditions, facts, rolls) == AllFrom(Verdicts(conditions, facts, rolls), i)
    {
      if !Passes(conditions[i], facts, rolls(i)) {
        return false;
      }
      i := i + 1;
    }
    return true;
  }

  /** A topic whose triples are all blank is always eligible. */
  lemma BlankTriplesEligible(conditions: seq<Condition>, facts: Facts, rolls: nat -> int)
    requires RollsInRange(rolls)
    requires forall i :: 0 <= i < |conditions| ==> IsSkipped(conditions[i])
    ensures Eligible(conditions, facts, rolls)
  {
    forall i | 0 <= i < |conditions| ensures Passes(conditions[i], facts, rolls(i)) {
      assert IsSkipped(conditions[i]);
    }
  }

  /** A non-blank triple naming a variable other than "Random Number" that
      is not among the facts makes the topic ineligible. */
  lemma MissingVariableIneligible(conditions: seq<Condition>, facts: Facts, rolls: nat -> int, i: nat)
    requires RollsInRange(rolls)
    requires i < |conditions| && !IsSkipped(conditions[i])
    requires conditions[i].variable != RandomNumber && conditions[i].variable !in facts
    ensures !Eligible(conditions, facts, rolls)
  {
    assert Evaluate(conditions[i], facts, rolls(i)) == Failed(MissingVariable(conditions[i].variable));
  }

  /** A non-blank triple on a gathered fact: `==` is met exactly when some
      alternative equals the fact ignoring case, `!=` exactly when none does,
      neither of them faults, and an ordering compares the fact with every
      alternative as integers. */
  lemma NamedFactTriple(c: Condition, facts: Facts, roll: int)
    requires 1 <= roll <= 100
    requires !IsSkipped(c) && c.variable != RandomNumber && c.variable in facts
    ensures var r := Evaluate(c, facts, roll);
            c.comparison == "==" ==>
              (r.Met? || r.NotMet?) &&
              (r.Met? <==> exists k :: 0 <= k < |Alternatives(c.value)| &&
                                      EqualsIgnoreCase(Alternatives(c.value)[k], facts[c.variable]))
    ensures var r := Evaluate(c, facts, roll);
            c.comparison == "!=" ==>
              (r.Met? || r.NotMet?) &&
              (r.Met? <==> forall k :: 0 <= k < |Alternatives(c.value)| ==>
                                      !EqualsIgnoreCase(Alternatives(c.value)[k], facts[c.variable]))
    ensures forall order :: c.comparison == OrderText(order) ==>
              Evaluate(c, facts, roll) == OrderingVerdict(order, facts[c.variable], Alternatives(c.value))
  {
    assert Resolve(c.variable, facts, roll) == Some(facts[c.variable]);
  }

  /** The alternatives of a printed integer are that integer alone. */
  lemma AlternativesOfInt(n: int)
    ensures Alternatives(IntToString(n)) == [IntToString(n)]
  {
    var s := IntToString(n);
    IntToStringChars(n);
    assert '|' !in s by {
      forall i | 0 <= i < |s| ensures s[i] != '|' {
        assert IsDigit(s[i]) || s[i] == '-';
      }
    }
    SplitWithoutSeparator(s, '|');
    assert !IsWhiteSpace(s[0]) by {
      assert IsDigit(s[0]) || s[0] == '-';
    }
    TrimKeeps(s);
    assert TrimEach([s]) == [Trim(s)];
  }

  /** The comparison text the switch accepts for each ordering operator. */
  function OrderText(order: Order): (s: string)
    ensures ParseOperator(s) == Some(Ordering(order))
  {
    match order
    case Less => "<"
    case Greater => ">"
    case LessOrEqual => "<="
    case GreaterOrEqual => ">="
  }

  lemma ParseAllOne(a: string)
    ensures ParseAll([a]) == if ParseInt(a).Some? then Some([ParseInt(a).value]) else None
  {
    assert [a][1..] == [];
    assert ParseAll([]) == Some([]);
    if ParseInt(a).Some? {
      assert [ParseInt(a).value] + [] == [ParseInt(a).value];
    }
  }

  /** A non-blank "Random Number" triple applies its comparison to the roll. */
  lemma RandomNumberResolves(c: Condition, facts: Facts, roll: int)
    requires 1 <= roll <= 100
    requires c.variable == RandomNumber && !IsSkipped(c)
    ensures Evaluate(c, facts, roll) == Apply(c.comparison, IntToString(roll), Alternatives(c.value))
  {
    assert Resolve(c.variable, facts, roll) == Some(IntToString(roll));
  }

  /** An ordering operator against a single integer alternative compares the
      two integers. */
  lemma OrderingAgainstOne(order: Order, x: int, bound: int)
    requires Int32Min <= x <= Int32Max && Int32Min <= bound <= Int32Max
    ensures OrderingVerdict(order, IntToString(x), [IntToString(bound)])
            == (if Compare(x, order, bound) then Met else NotMet)
  {
    ParseIntToString(x);
    ParseIntToString(bound);
    ParseAllOne(IntToString(bound));
    assert HoldsForAll(x, order, [bound]) == Compare(x, order, bound) by {
      assert [bound][1..] == [];
    }
  }

  lemma OrderingTripleNotBlank(order: Order, bound: int)
    ensures !IsSkipped(Condition(RandomNumber, OrderText(order), IntToString(bound)))
  {
    assert !IsWhiteSpace(RandomNumber[0]);
    assert !IsWhiteSpace(OrderText(order)[0]);
    assert !IsWhiteSpace(IntToString(bound)[0]) by {
      if bound >= 0 { assert IsDigit(NatToString(bound)[0]); }
    }
  }

  /** A "Random Number" triple never misses its variable: it compares the
      roll itself, a value in [1, 100], against an integer bound. */
  lemma RandomNumberComparesRoll(order: Order, bound: int, facts: Facts, roll: int)
    requires 1 <= roll <= 100 && Int32Min <= bound <= Int32Max
    ensures Evaluate(Condition(RandomNumber, OrderText(order), IntToString(bound)), facts, roll)
            == (if Compare(roll, order, bound) then Met else NotMet)
  {
    var c := Condition(RandomNumber, OrderText(order), IntToString(bound));
    OrderingTripleNotBlank(order, bound);
    RandomNumberResolves(c, facts, roll);
    AlternativesOfInt(bound);
    OrderingAgainstOne(order, roll, bound);
  }

  /** Hence a "Random Number" triple `>= lo` with `lo <= 1` always holds. */
  lemma RandomNumberAtLeast(facts: Facts, roll: int, lo: int)
    requires 1 <= roll <= 100 && Int32Min <= lo <= 1
    ensures Evaluate(Condition(RandomNumber, OrderText(GreaterOrEqual), IntToString(lo)), facts, roll) == Met
  {
    assert Compare(roll, GreaterOrEqual, lo);
    RandomNumberComparesRoll(GreaterOrEqual, lo, facts, roll);
  }

  /** And a "Random Number" triple `<= hi` with `hi >= 100` always holds. */
  lemma RandomNumberAtMost(facts: Facts, roll: int, hi: int)
    requires 1 <= roll <= 100 && 100 <= hi <= Int32Max
    ensures Evaluate(Condition(RandomNumber, OrderText(LessOrEqual), IntToString(hi)), facts, roll) == Met
  {
    assert Compare(roll, LessOrEqual, hi);
    RandomNumberComparesRoll(LessOrEqual, hi, facts, roll);
  }
}
