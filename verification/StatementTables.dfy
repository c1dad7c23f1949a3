/** The order of each type's statement (attest/text.go), told as the keys a reader
    meets, one after the other. */
module StatementTables {
  import opened Wrappers
  import opened StatementOrder

  /** A key: a field of another's, whatever a caller names there, or any index. */
  datatype Key = Top | At(up: Key, name: string) | Any(up: Key) | Each(up: Key)

  datatype Keys = End | Then(key: Key, more: Keys)

  /** Every key a table has a place for, in its order, before more. */
  function KeysOf(order: Fields, up: Key, more: Keys): Keys {
    match order
    case NoFields => more
    case Fields(f, rest) => KeysUnder(f, At(up, f.name), KeysOf(rest, up, more))
  }

  function KeysUnder(f: Field, key: Key, more: Keys): Keys {
    if f.isSet then Then(Any(key), more)
    else if f.under == NoFields then Then(key, more)
    else KeysOf(f.under, if f.isList then Each(key) else key, more)
  }

  const CLAIM := At(Top, "predicate")
  const CHECKS := Each(At(CLAIM, "checks"))

  /** What a statement is about, before its claim. */
  function About(claim: Keys): Keys {
    Then(At(At(Top, "subject"), "primary"), Then(Any(At(At(Top, "subject"), "digest")), Then(At(Top, "predicateType"), claim)))
  }

  function Check(more: Keys): Keys {
    var check := At(CLAIM, "check");
    Then(At(check, "name"), Then(At(check, "runner"), Then(At(check, "attribute"), Then(At(check, "command"), more))))
  }

  /** Where a statement came from, after its claim. */
  function Provenance(): Keys {
    var run := At(Top, "provenance");
    var grant := Each(At(run, "delegation"));
    Then(At(run, "harness"), Then(At(run, "model"), Then(Any(At(run, "prompt")), Then(Any(At(run, "context")),
    Then(At(grant, "principal"), Then(At(grant, "grant"), End))))))
  }

  function PureClaim(more: Keys): Keys {
    Check(Then(At(CLAIM, "result"), Then(Any(At(CLAIM, "inputs")), Then(Any(At(CLAIM, "derivation")), Then(Any(At(CLAIM, "output")), more)))))
  }

  function EffectClaim(more: Keys): Keys {
    Check(Then(At(CLAIM, "environment"), Then(At(CLAIM, "observedAt"), Then(At(CLAIM, "result"), more))))
  }

  function TransferClaim(more: Keys): Keys {
    Then(At(CLAIM, "change"), Then(At(CLAIM, "target"), Then(Any(At(CLAIM, "base")), Then(Any(At(CLAIM, "policy")),
    Then(At(CLAIM, "required"), Then(At(CHECKS, "name"), Then(At(CHECKS, "rule"),
    Then(Any(At(CHECKS, "evidence")), Then(Any(At(CHECKS, "inputs")), more)))))))))
  }

  ghost predicate IsTable(predicateType: string, keys: Keys) {
    TableFor(predicateType).Some? && KeysOf(TableFor(predicateType).value, Top, End) == keys
  }

  lemma Unfold()
    ensures forall up, more :: KeysOf(NoFields, up, more) == more
    ensures forall name, rest, up, more :: KeysOf(Fields(Leaf(name), rest), up, more) == Then(At(up, name), KeysOf(rest, up, more))
    ensures forall name, rest, up, more :: KeysOf(Fields(Set(name), rest), up, more) == Then(Any(At(up, name)), KeysOf(rest, up, more))
  {
  }

  lemma UnfoldUnder(name: string, under: Fields, rest: Fields, up: Key, more: Keys)
    requires under != NoFields
    ensures KeysOf(Fields(Object(name, under), rest), up, more) == KeysOf(under, At(up, name), KeysOf(rest, up, more))
    ensures KeysOf(Fields(List(name, under), rest), up, more) == KeysOf(under, Each(At(up, name)), KeysOf(rest, up, more))
  {
  }

  /** Each of the three types has its own claim, between the same two parts. */
  lemma KeysAre()
    ensures IsTable("the-valley/check/pure/v1", About(PureClaim(Provenance())))
    ensures IsTable("the-valley/check/effectful/v1", About(EffectClaim(Provenance())))
    ensures IsTable("the-valley/integration/transfer/v1", About(TransferClaim(Provenance())))
  {
    hide KeysOf, OrderOf, Provenance, About, PureClaim, EffectClaim, TransferClaim;
    PureIs(Provenance());
    EffectIs(Provenance());
    TransferIs(Provenance());
    OrderIs(PureOrder().under);
    OrderIs(EffectOrder().under);
    OrderIs(TransferOrder().under);
  }

  lemma OrderIs(claim: Fields)
    requires claim != NoFields
    ensures KeysOf(OrderOf(Object("predicate", claim)), Top, End) == About(KeysOf(claim, CLAIM, Provenance()))
  {
    hide KeysOf, Leaf, Set, Object, List;
    Unfold();
    var last := Fields(ProvenanceOrder(), NoFields);
    UnfoldUnder("subject", Fields(Leaf("primary"), Fields(Set("digest"), NoFields)),
                Fields(Leaf("predicateType"), Fields(Object("predicate", claim), last)), Top, End);
    UnfoldUnder("predicate", claim, last, Top, End);
    var grants := Fields(Leaf("principal"), Fields(Leaf("grant"), NoFields));
    UnfoldUnder("delegation", grants, NoFields, At(Top, "provenance"), End);
    UnfoldUnder("provenance", Fields(Leaf("harness"), Fields(Leaf("model"), Fields(Set("prompt"), Fields(Set("context"),
                Fields(List("delegation", grants), NoFields))))), NoFields, Top, End);
  }

  lemma CheckIs(rest: Fields, more: Keys)
    ensures KeysOf(Fields(CheckOrder(), rest), CLAIM, more) == Check(KeysOf(rest, CLAIM, more))
  {
    hide KeysOf, Leaf, Set, Object, List;
    Unfold();
    UnfoldUnder("check", Fields(Leaf("name"), Fields(Leaf("runner"), Fields(Leaf("attribute"), Fields(Leaf("command"), NoFields)))),
                rest, CLAIM, more);
  }

  lemma PureIs(more: Keys)
    ensures PureOrder() == Object("predicate", PureOrder().under) && KeysOf(PureOrder().under, CLAIM, more) == PureClaim(more)
  {
    hide KeysOf, Leaf, Set, List, CheckOrder, Check;
    Unfold();
    CheckIs(PureOrder().under.rest, more);
  }

  lemma EffectIs(more: Keys)
    ensures EffectOrder() == Object("predicate", EffectOrder().under) && KeysOf(EffectOrder().under, CLAIM, more) == EffectClaim(more)
  {
    hide KeysOf, Leaf, Set, List, CheckOrder, Check;
    Unfold();
    CheckIs(EffectOrder().under.rest, more);
  }

  lemma TransferIs(more: Keys)
    ensures TransferOrder() == Object("predicate", TransferOrder().under)
    ensures KeysOf(TransferOrder().under, CLAIM, more) == TransferClaim(more)
  {
    hide KeysOf, Leaf, Set, List;
    Unfold();
    UnfoldUnder("checks", VerdictOrder(), NoFields, CLAIM, more);
  }

  lemma NoOtherTable(predicateType: string)
    ensures TableFor(predicateType).Some? <==>
            predicateType in {"the-valley/check/pure/v1", "the-valley/check/effectful/v1", "the-valley/integration/transfer/v1"}
  {
  }
}
