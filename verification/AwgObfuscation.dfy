/** The obfuscation values made up for an AmneziaWG listener (awg_inbound.py): the AWG 1.x
    fields the spec leaves out, kept from run to run while they fit around the declared ones. */
module AwgObfuscation {
  import opened Arithmetic

  datatype Field = Jc | Jmin | Jmax | S1 | S2 | H1 | H2 | H3 | H4

  /** The fields in the order they are picked. */
  const ORDER := [Jc, Jmin, Jmax, S1, S2, H1, H2, H3, H4]

  /** A declared value is a number or text (a header range, say). */
  datatype Value = Number(n: int) | Text(t: string)

  type Values = map<Field, Value>

  const HANDSHAKE_SIZE_DIFFERENCE := 56
  const MAX_HEADER := 0x7FFF_FFFF

  predicate HasNumber(values: Values, f: Field) {
    f in values && values[f].Number?
  }

  const HEADERS := {H1, H2, H3, H4}

  function JminHigh(values: Values): int {
    if HasNumber(values, Jmax) then Max(0, Min(50, values[Jmax].n - 1)) else 50
  }

  function JminValue(values: Values): int {
    if HasNumber(values, Jmin) then values[Jmin].n else 0
  }

  /** The least and the greatest value drawn for a field, around those there already. */
  function Low(values: Values, f: Field): int {
    match f
    case Jc => 3
    case Jmin => Min(8, JminHigh(values))
    case Jmax => JminValue(values) + 8
    case S1 => 15
    case S2 => 15
    case _ => 5
  }

  function High(values: Values, f: Field): int {
    match f
    case Jc => 10
    case Jmin => JminHigh(values)
    case Jmax => Max(JminValue(values) + 8, 250)
    case S1 => 150
    case S2 => 150
    case _ => MAX_HEADER
  }

  predicate Valid(values: Values, f: Field, v: int) {
    Low(values, f) <= v <= High(values, f)
    && match f
       case S1 => !HasNumber(values, S2) || v + HANDSHAKE_SIZE_DIFFERENCE != values[S2].n
       case S2 => !HasNumber(values, S1) || values[S1].n + HANDSHAKE_SIZE_DIFFERENCE != v
       case H1 => NewHeader(values, f, v)
       case H2 => NewHeader(values, f, v)
       case H3 => NewHeader(values, f, v)
       case H4 => NewHeader(values, f, v)
       case _ => true
  }

  predicate NewHeader(values: Values, f: Field, v: int) {
    forall other :: other in HEADERS && other != f && other in values ==> values[other] != Number(v)
  }

  /** Every field has a value to draw, whatever the others are: the retries can end. */
  lemma SomeValid(values: Values, f: Field) returns (v: int)
    ensures Valid(values, f, v)
  {
    match f
    case Jc => v := 3;
    case Jmin => v := JminHigh(values);
    case Jmax => v := JminValue(values) + 8;
    case S1 => v := if Valid(values, S1, 15) then 15 else 16;
    case S2 => v := if Valid(values, S2, 15) then 15 else 16;
    case _ => v := SomeHeader(values, f);
  }

  /** Three other headers leave one of four numbers. */
  lemma SomeHeader(values: Values, f: Field) returns (v: int)
    requires f in HEADERS
    ensures 5 <= v <= 8 && NewHeader(values, f, v)
  {
    hide NewHeader;
    if NewHeader(values, f, 5) { return 5; }
    if NewHeader(values, f, 6) { return 6; }
    if NewHeader(values, f, 7) { return 7; }
    v := 8;
    if !NewHeader(values, f, 8) {
      var a := SameHeader(values, f, 5);
      var b := SameHeader(values, f, 6);
      var c := SameHeader(values, f, 7);
      var d := SameHeader(values, f, 8);
      assert false;
    }
  }

  lemma SameHeader(values: Values, f: Field, v: int) returns (other: Field)
    requires !NewHeader(values, f, v)
    ensures other in HEADERS && other != f && other in values && values[other] == Number(v)
  {
    other :| other in HEADERS && other != f && other in values && values[other] == Number(v);
  }

  /** Where a field comes in that order. */
  function Rank(f: Field): (k: nat)
    ensures k < |ORDER| && ORDER[k] == f
  {
    match f
    case Jc => 0
    case Jmin => 1
    case Jmax => 2
    case S1 => 3
    case S2 => 4
    case H1 => 5
    case H2 => 6
    case H3 => 7
    case H4 => 8
  }

  lemma RankOf(k: nat)
    requires k < |ORDER|
    ensures Rank(ORDER[k]) == k
  {}

  /** The values once the first k fields have been picked, if all is how it ends. */
  function Upto(all: Values, declared: Values, k: nat): Values {
    map f | f in all && (f in declared || Rank(f) < k) :: all[f]
  }

  /** A value picked for a field: valid around those before it, and the stored one if that is. */
  ghost predicate Picked(before: Values, stored: Values, f: Field, value: Value) {
    value.Number? && Valid(before, f, value.n)
    && (HasNumber(stored, f) && Valid(before, f, stored[f].n) ==> value == stored[f])
  }

  /** A full set of values around the declared ones. */
  ghost predicate WellChosen(declared: Values, stored: Values, all: Values) {
    (forall f :: f in all)
    && (forall f :: f in declared ==> all[f] == declared[f])
    && forall f :: f !in declared ==> Picked(Upto(all, declared, Rank(f)), stored, f, all[f])
  }

  /** Drawn until valid, unless the stored value is. */
  method Pick(values: Values, stored: Values, f: Field) returns (current: int)
    ensures Picked(values, stored, f, Number(current))
  {
    hide Valid, Low, High;
    if HasNumber(stored, f) && Valid(values, f, stored[f].n) {
      return stored[f].n;
    }
    var v := SomeValid(values, f);
    InRange(values, f, v);
    current :| Low(values, f) <= current <= High(values, f) && Valid(values, f, current);
  }

  /** The values generated; with the declared ones they are a full set. */
  method GenerateObfuscation(declared: Values, stored: Values) returns (generated: Values)
    ensures generated.Keys !! declared.Keys
    ensures WellChosen(declared, stored, declared + generated)
  {
    hide Valid, Rank, ORDER, Low, High, Upto, Picked;
    var values := declared;
    generated := map[];
    for i := 0 to |ORDER|
      invariant generated.Keys !! declared.Keys && values == declared + generated
      invariant forall f :: f in values <==> f in declared || Rank(f) < i
      invariant forall f :: f !in declared && Rank(f) < i ==>
        Picked(Upto(values, declared, Rank(f)), stored, f, values[f])
    {
      var f := ORDER[i];
      RankOf(i);
      if f !in values {
        var current := Pick(values, stored, f);
        KeepPicked(declared, stored, values, f, Number(current));
        values, generated := values[f := Number(current)], generated[f := Number(current)];
      }
    }
  }

  lemma InRange(values: Values, f: Field, v: int)
    requires Valid(values, f, v)
    ensures Low(values, f) <= v <= High(values, f)
  {}

  /** Picking one more field leaves what the earlier ones were picked around as it was. */
  lemma KeepPicked(declared: Values, stored: Values, before: Values, f: Field, value: Value)
    requires forall g :: g in before <==> g in declared || Rank(g) < Rank(f)
    requires forall g :: g !in declared && Rank(g) < Rank(f) ==>
      Picked(Upto(before, declared, Rank(g)), stored, g, before[g])
    requires f !in declared && Picked(before, stored, f, value)
    ensures forall g :: g !in declared && Rank(g) <= Rank(f) ==>
              Picked(Upto(before[f := value], declared, Rank(g)), stored, g, before[f := value][g])
  {
    hide Picked, Rank, Upto;
    var after := before[f := value];
    forall g | g !in declared && Rank(g) <= Rank(f)
      ensures g in after && Picked(Upto(after, declared, Rank(g)), stored, g, after[g])
    {
      if g == f {
        UptoUpdate(before, declared, f, value, f);
        UptoAll(before, declared, f);
      } else {
        OneRank(f, g);
        UptoUpdate(before, declared, f, value, g);
      }
    }
  }

  lemma OneRank(f: Field, g: Field)
    requires f != g
    ensures Rank(f) != Rank(g)
  {}

  lemma UptoUpdate(before: Values, declared: Values, f: Field, value: Value, g: Field)
    requires f !in declared && Rank(g) <= Rank(f)
    ensures Upto(before[f := value], declared, Rank(g)) == Upto(before, declared, Rank(g))
  {
    hide Rank;
  }

  lemma UptoAll(before: Values, declared: Values, f: Field)
    requires forall g :: g in before <==> g in declared || Rank(g) < Rank(f)
    ensures Upto(before, declared, Rank(f)) == before
  {
    hide Rank;
  }

  /** Generated again from what was generated, nothing changes. */
  lemma {:induction false} FixedPoint(declared: Values, stored: Values, all: Values, again: Values, f: Field)
    requires WellChosen(declared, stored, all)
    requires WellChosen(declared, all - declared.Keys, again)
    ensures again[f] == all[f]
    decreases Rank(f)
  {
    hide Valid, Rank, Upto, HasNumber;
    forall g | Rank(g) < Rank(f) ensures again[g] == all[g] { FixedPoint(declared, stored, all, again, g); }
    UptoAgree(all, again, declared, Rank(f));
    if f !in declared { PickedStored(Upto(all, declared, Rank(f)), stored, all - declared.Keys, f, all[f], again[f]); }
  }

  lemma UptoAgree(a: Values, b: Values, declared: Values, k: nat)
    requires (forall f :: f in a) && (forall f :: f in b)
    requires forall f :: f in declared ==> a[f] == b[f]
    requires forall f :: Rank(f) < k ==> a[f] == b[f]
    ensures Upto(a, declared, k) == Upto(b, declared, k)
  {
    hide Rank;
  }

  lemma PickedStored(before: Values, stored: Values, generated: Values, f: Field, value: Value, again: Value)
    requires Picked(before, stored, f, value) && Picked(before, generated, f, again) && f in generated
      && generated[f] == value
    ensures again == value
  {
    hide Valid;
  }

  lemma GeneratedIsFixed(declared: Values, stored: Values, generated: Values, again: Values)
    requires generated.Keys !! declared.Keys && again.Keys !! declared.Keys
    requires WellChosen(declared, stored, declared + generated)
    requires WellChosen(declared, generated, declared + again)
    ensures again == generated
  {
    hide Valid, Picked, Rank, Upto, HasNumber;
    var all, all' := declared + generated, declared + again;
    assert all - declared.Keys == generated && all' - declared.Keys == again;
    forall f ensures all[f] == all'[f] { FixedPoint(declared, stored, all, all', f); }
    assert forall f :: f in all && f in all';
    assert all == all';
  }

  /** What AmneziaWG asks of the values, of every pair of which one was generated: junk sizes in
      order, padded handshakes of two sizes, four different headers. */
  lemma WellChosenMeaning(declared: Values, stored: Values, all: Values)
    requires WellChosen(declared, stored, all)
    ensures Jc !in declared ==> all[Jc].Number? && 3 <= all[Jc].n <= 10
    ensures Jmin !in declared ==> all[Jmin].Number? && 0 <= all[Jmin].n <= 50
    ensures Jmax !in declared ==>
      all[Jmax].Number? && (all[Jmin].Number? ==> all[Jmin].n + 8 <= all[Jmax].n <= Max(all[Jmin].n + 8, 250))
    ensures Jmin !in declared && all[Jmax].Number? && all[Jmax].n >= 1 ==> all[Jmin].n < all[Jmax].n
    ensures S1 !in declared ==> all[S1].Number? && 15 <= all[S1].n <= 150
    ensures S2 !in declared ==> all[S2].Number? && 15 <= all[S2].n <= 150
    ensures (S1 !in declared || S2 !in declared) && all[S1].Number? && all[S2].Number? ==>
              all[S1].n + 56 != all[S2].n
  {
    PickedAt(declared, stored, all, Jc);
    PickedAt(declared, stored, all, Jmin);
    PickedAt(declared, stored, all, Jmax);
    PickedAt(declared, stored, all, S1);
    PickedAt(declared, stored, all, S2);
  }

  /** What a value is to be around the declared ones and those generated before it: few junk packets,
      small and in order, padding that leaves the two handshakes of different sizes, a new header. */
  predicate FitsAround(declared: Values, all: Values, f: Field, v: int)
    requires forall g :: g in all
  {
    match f
    case Jc => 3 <= v <= 10
    case Jmin =>
      if Jmax !in declared || declared[Jmax].Text? then 8 <= v <= 50
      else if declared[Jmax].n <= 1 then v == 0
      else if declared[Jmax].n <= 9 then v == declared[Jmax].n - 1
      else 8 <= v <= 50 && v < declared[Jmax].n
    case Jmax => (if all[Jmin].Number? then all[Jmin].n else 0) + 8 <= v
                 && (v <= 250 || (all[Jmin].Number? && v == all[Jmin].n + 8))
    case S1 => 15 <= v <= 150 && (S2 in declared && declared[S2].Number? ==> v + 56 != declared[S2].n)
    case S2 => 15 <= v <= 150 && (all[S1].Number? ==> all[S1].n + 56 != v)
    case H1 => 5 <= v < 0x8000_0000 && NoneIs(all, declared.Keys * {H2, H3, H4}, v)
    case H2 => 5 <= v < 0x8000_0000 && NoneIs(all, declared.Keys * {H3, H4} + {H1}, v)
    case H3 => 5 <= v < 0x8000_0000 && NoneIs(all, declared.Keys * {H4} + {H1, H2}, v)
    case H4 => 5 <= v < 0x8000_0000 && NoneIs(all, {H1, H2, H3}, v)
  }

  predicate NoneIs(all: Values, others: set<Field>, v: int)
    requires forall g :: g in all
  {
    forall other :: other in others ==> all[other] != Number(v)
  }

  /** Every generated value is such a one, and the stored one whenever that is. */
  lemma ChosenAround(declared: Values, stored: Values, all: Values, f: Field)
    requires WellChosen(declared, stored, all) && f !in declared
    ensures all[f].Number? && FitsAround(declared, all, f, all[f].n)
    ensures HasNumber(stored, f) && FitsAround(declared, all, f, stored[f].n) ==> all[f] == stored[f]
  {
    PickedAt(declared, stored, all, f);
    ValidAround(declared, all, f, all[f].n);
    if HasNumber(stored, f) { ValidAround(declared, all, f, stored[f].n); }
  }

  lemma ValidAround(declared: Values, all: Values, f: Field, v: int)
    requires (forall g :: g in all) && (forall g :: g in declared ==> all[g] == declared[g]) && f !in declared
    ensures Valid(Upto(all, declared, Rank(f)), f, v) <==> FitsAround(declared, all, f, v)
  {
    hide Upto, NewHeader, NoneIs;
    var before := Upto(all, declared, Rank(f));
    match f
    case Jc =>
    case Jmin => Before(declared, all, f, Jmax);
    case Jmax => Before(declared, all, f, Jmin);
    case S1 => Before(declared, all, f, S2);
    case S2 => Before(declared, all, f, S1);
    case _ => HeadersBefore(declared, all, f, v);
  }

  lemma Before(declared: Values, all: Values, f: Field, g: Field)
    requires (forall g :: g in all) && forall g :: g in declared ==> all[g] == declared[g]
    ensures var before := Upto(all, declared, Rank(f));
            (g in before <==> g in declared || Rank(g) < Rank(f)) && (g in before ==> before[g] == all[g])
  {}

  lemma HeadersBefore(declared: Values, all: Values, f: Field, v: int)
    requires (forall g :: g in all) && (forall g :: g in declared ==> all[g] == declared[g])
    requires f in HEADERS && f !in declared
    ensures NewHeader(Upto(all, declared, Rank(f)), f, v) <==>
              NoneIs(all, match f
                          case H2 => declared.Keys * {H3, H4} + {H1}
                          case H3 => declared.Keys * {H4} + {H1, H2}
                          case H4 => {H1, H2, H3}
                          case _ => declared.Keys * {H2, H3, H4}, v)
  {
    hide Upto;
    Before(declared, all, f, H1);
    Before(declared, all, f, H2);
    Before(declared, all, f, H3);
    Before(declared, all, f, H4);
  }

  lemma PickedAt(declared: Values, stored: Values, all: Values, f: Field)
    requires WellChosen(declared, stored, all)
    ensures f !in declared ==> all[f].Number? && Valid(Upto(all, declared, Rank(f)), f, all[f].n)
  {
    hide Valid;
  }

  lemma HeadersDiffer(declared: Values, stored: Values, all: Values, f: Field, g: Field)
    requires WellChosen(declared, stored, all) && f in HEADERS && g in HEADERS && f != g && f !in declared
    ensures all[f].Number? && 5 <= all[f].n < 0x8000_0000 && all[f] != all[g]
  {
    hide Rank, Low, High, Upto;
    PickedAt(declared, stored, all, f);
    OneRank(f, g);
    if g in declared || Rank(g) < Rank(f) {
      HeaderNew(declared, all, f, g);
    } else {
      PickedAt(declared, stored, all, g);
      HeaderNew(declared, all, g, f);
    }
    HeaderRange(Upto(all, declared, Rank(f)), f, all[f].n);
  }

  lemma HeaderRange(before: Values, f: Field, v: int)
    requires f in HEADERS && Valid(before, f, v)
    ensures 5 <= v <= MAX_HEADER
  {}

  lemma HeaderNew(declared: Values, all: Values, f: Field, g: Field)
    requires f in HEADERS && g in HEADERS && f != g && f in all && g in all && (g in declared || Rank(g) < Rank(f))
    requires all[f].Number? && Valid(Upto(all, declared, Rank(f)), f, all[f].n)
    ensures all[f] != all[g]
  {
    hide Rank, Low, High;
    var before := Upto(all, declared, Rank(f));
    assert g in before && before[g] == all[g];
    assert NewHeader(before, f, all[f].n);
  }
}
