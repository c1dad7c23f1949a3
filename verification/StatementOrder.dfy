/** How a statement is ordered (attest/text.go): each type's table of fields, the
    keys it takes from a document, and the total order they come out in. */
module StatementOrder {
  import opened Wrappers
  import opened Strings
  import opened Decimal
  import opened StatementDoc

  const STATEMENT_TYPE := "the-valley/attestation/v1"
  const PREDICATE_PURE := "the-valley/check/pure/v1"
  const PREDICATE_EFFECT := "the-valley/check/effectful/v1"
  const PREDICATE_TRANSFER := "the-valley/integration/transfer/v1"

  /** One entry of the table: a leaf, a map whose keys a caller supplies, an
      array, or an object with an order of its own. */
  datatype Field = Field(name: string, isSet: bool, isList: bool, under: Fields)

  datatype Fields = NoFields | Fields(first: Field, rest: Fields)

  function Leaf(name: string): Field { Field(name, false, false, NoFields) }
  function Set(name: string): Field { Field(name, true, false, NoFields) }
  function Object(name: string, under: Fields): Field { Field(name, false, false, under) }
  function List(name: string, under: Fields): Field { Field(name, false, true, under) }

  function CheckOrder(): Field {
    Object("check", Fields(Leaf("name"), Fields(Leaf("runner"), Fields(Leaf("attribute"), Fields(Leaf("command"), NoFields)))))
  }

  function PureOrder(): Field {
    Object("predicate",
           Fields(CheckOrder(), Fields(Leaf("result"),
           Fields(Set("inputs"), Fields(Set("derivation"), Fields(Set("output"), NoFields))))))
  }

  function EffectOrder(): Field {
    Object("predicate",
           Fields(CheckOrder(), Fields(Leaf("environment"), Fields(Leaf("observedAt"), Fields(Leaf("result"), NoFields)))))
  }

  function TransferOrder(): Field {
    Object("predicate",
           Fields(Leaf("change"), Fields(Leaf("target"), Fields(Set("base"), Fields(Set("policy"), Fields(Leaf("required"),
           Fields(List("checks", VerdictOrder()), NoFields)))))))
  }

  function VerdictOrder(): Fields {
    Fields(Leaf("name"), Fields(Leaf("rule"), Fields(Set("evidence"), Fields(Set("inputs"), NoFields))))
  }

  function ProvenanceOrder(): Field {
    Object("provenance",
           Fields(Leaf("harness"), Fields(Leaf("model"), Fields(Set("prompt"), Fields(Set("context"),
           Fields(List("delegation", Fields(Leaf("principal"), Fields(Leaf("grant"), NoFields))), NoFields))))))
  }

  function TableFor(predicateType: string): (order: Option<Fields>)
  {
    if predicateType == PREDICATE_PURE then Some(OrderOf(PureOrder()))
    else if predicateType == PREDICATE_EFFECT then Some(OrderOf(EffectOrder()))
    else if predicateType == PREDICATE_TRANSFER then Some(OrderOf(TransferOrder()))
    else None
  }

  function OrderOf(claim: Field): Fields {
    Fields(Object("subject", Fields(Leaf("primary"), Fields(Set("digest"), NoFields))),
           Fields(Leaf("predicateType"), Fields(claim, Fields(ProvenanceOrder(), NoFields))))
  }

  predicate Names(order: Fields, name: string) {
    order.Fields? && (order.first.name == name || Names(order.rest, name))
  }

  /** A table names each field once. */
  predicate OrderFits(order: Fields) {
    order.Fields? ==>
      && !Names(order.rest, order.first.name)
      && OrderFits(order.first.under) && OrderFits(order.rest)
  }

  // The keys a table names over a document.

  function OrderedKeys(fields: map<string, Doc>, order: Fields, prefix: string): seq<string>
    decreases order, 0
  {
    match order
    case NoFields => []
    case Fields(f, rest) =>
      (if f.name in fields then FieldKeys(fields[f.name], f, JoinKey(prefix, f.name)) else [])
      + OrderedKeys(fields, rest, prefix)
  }

  function FieldKeys(v: Doc, f: Field, key: string): seq<string>
    decreases f, 1
  {
    if f.isSet then if v.Obj? then SetKeys(key, Sorted(v.fields.Keys)) else [key]
    else if f.isList then if v.Arr? then ElementKeys(v.items, 0, f.under, key) else [key]
    else if f.under != NoFields then if v.Obj? then OrderedKeys(v.fields, f.under, key) else [key]
    else [key]
  }

  function SetKeys(key: string, names: seq<string>): seq<string> {
    seq(|names|, i requires 0 <= i < |names| => JoinKey(key, names[i]))
  }

  function ElementKeys(items: seq<Doc>, i: nat, under: Fields, key: string): seq<string>
    requires i <= |items|
    decreases under, 1, |items| - i
  {
    if i == |items| then []
    else
      var at := JoinKey(key, Itoa(i));
      (if items[i].Obj? then OrderedKeys(items[i].fields, under, at) else [at])
      + ElementKeys(items, i + 1, under, key)
  }

  // The same as paths of segments, from the table's own root.

  ghost function OrderedPaths(fields: map<string, Doc>, order: Fields): seq<seq<string>>
    decreases order, 0
  {
    match order
    case NoFields => []
    case Fields(f, rest) =>
      (if f.name in fields then Below(f.name, FieldPaths(fields[f.name], f)) else []) + OrderedPaths(fields, rest)
  }

  ghost function FieldPaths(v: Doc, f: Field): seq<seq<string>>
    decreases f, 1
  {
    if f.isSet then if v.Obj? then Singles(Sorted(v.fields.Keys)) else [[]]
    else if f.isList then if v.Arr? then ElementPaths(v.items, 0, f.under) else [[]]
    else if f.under != NoFields then if v.Obj? then OrderedPaths(v.fields, f.under) else [[]]
    else [[]]
  }

  ghost function ElementPaths(items: seq<Doc>, i: nat, under: Fields): seq<seq<string>>
    requires i <= |items|
    decreases under, 1, |items| - i
  {
    if i == |items| then []
    else
      Below(Itoa(i), if items[i].Obj? then OrderedPaths(items[i].fields, under) else [[]])
      + ElementPaths(items, i + 1, under)
  }

  ghost function Below(s: string, paths: seq<seq<string>>): (r: seq<seq<string>>)
    ensures |r| == |paths| && forall i :: 0 <= i < |r| ==> r[i] == [s] + paths[i]
  {
    seq(|paths|, i requires 0 <= i < |paths| => [s] + paths[i])
  }

  ghost function Singles(names: seq<string>): (r: seq<seq<string>>)
    ensures |r| == |names| && forall i :: 0 <= i < |r| ==> r[i] == [names[i]]
  {
    seq(|names|, i requires 0 <= i < |names| => [names[i]])
  }

  // Keys are the keys of paths.

  ghost predicate AreKeys(keys: seq<string>, at: seq<string>, paths: seq<seq<string>>) {
    && |keys| == |paths|
    && forall i :: 0 <= i < |keys| ==> SegmentsFit(paths[i]) && keys[i] == Key(at + paths[i])
  }

  lemma KeysBelow(keys: seq<string>, at: seq<string>, s: string, paths: seq<seq<string>>)
    requires SegmentFits(s) || Canonical(s)
    requires AreKeys(keys, at + [s], paths)
    ensures AreKeys(keys, at, Below(s, paths))
  {
    hide SegmentFits, Canonical, Key;
    forall i | 0 <= i < |keys|
      ensures SegmentsFit(Below(s, paths)[i]) && keys[i] == Key(at + Below(s, paths)[i])
    {
      assert at + ([s] + paths[i]) == (at + [s]) + paths[i];
      assert SegmentsFit(paths[i]);
    }
  }

  lemma KeyHere(at: seq<string>)
    ensures AreKeys([Key(at)], at, [[]])
  {
    assert at + [] == at;
  }

  lemma KeysTogether(k0: seq<string>, p0: seq<seq<string>>, k1: seq<string>, p1: seq<seq<string>>, at: seq<string>)
    requires AreKeys(k0, at, p0) && AreKeys(k1, at, p1)
    ensures AreKeys(k0 + k1, at, p0 + p1)
  {
    hide SegmentsFit, Key;
  }

  lemma {:induction false} OrderedKeysArePaths(fields: map<string, Doc>, order: Fields, at: seq<string>)
    requires Writable(Obj(fields)) && OrderFits(order) && SegmentsFit(at)
    ensures AreKeys(OrderedKeys(fields, order, Key(at)), at, OrderedPaths(fields, order))
    decreases order, 0
  {
    hide SegmentFits, Canonical, ValueFits, AreKeys, Key, SegmentsFit;
    match order
    case NoFields =>
      NoKeys(at);
    case Fields(f, rest) =>
      OrderedKeysArePaths(fields, rest, at);
      if f.name in fields {
        KeyOneMore(at, f.name);
        SegmentsFitOneMore(at, f.name);
        FieldKeysArePaths(fields[f.name], f, at + [f.name]);
        KeysBelow(FieldKeys(fields[f.name], f, Key(at + [f.name])), at, f.name, FieldPaths(fields[f.name], f));
        KeysTogether(FieldKeys(fields[f.name], f, Key(at + [f.name])), Below(f.name, FieldPaths(fields[f.name], f)),
                     OrderedKeys(fields, rest, Key(at)), OrderedPaths(fields, rest), at);
      } else {
        assert OrderedKeys(fields, order, Key(at)) == OrderedKeys(fields, rest, Key(at));
        assert OrderedPaths(fields, order) == OrderedPaths(fields, rest);
      }
  }

  lemma NoKeys(at: seq<string>)
    ensures AreKeys([], at, [])
  {
  }

  lemma SegmentsFitOneMore(at: seq<string>, s: string)
    requires SegmentsFit(at) && (SegmentFits(s) || Canonical(s))
    ensures SegmentsFit(at + [s])
  {
  }

  lemma {:induction false} FieldKeysArePaths(v: Doc, f: Field, at: seq<string>)
    requires Writable(v) && OrderFits(f.under) && SegmentsFit(at)
    ensures AreKeys(FieldKeys(v, f, Key(at)), at, FieldPaths(v, f))
    decreases f, 1
  {
    hide SegmentFits, Canonical, ValueFits, AreKeys, Key, SegmentsFit, OrderFits;
    KeyHere(at);
    if f.isSet {
      if v.Obj? { SetKeysArePaths(v, at); }
    } else if f.isList {
      if v.Arr? { ElementKeysArePaths(v.items, 0, f.under, at); }
    } else if f.under != NoFields && v.Obj? {
      OrderedKeysArePaths(v.fields, f.under, at);
    }
  }

  lemma SetKeysArePaths(v: Doc, at: seq<string>)
    requires v.Obj? && Writable(v) && SegmentsFit(at)
    ensures var names := Sorted(v.fields.Keys); AreKeys(SetKeys(Key(at), names), at, Singles(names))
  {
    hide SegmentFits, Canonical, ValueFits, Key, JoinKey;
    var names := Sorted(v.fields.Keys);
    forall i | 0 <= i < |names|
      ensures SegmentsFit([names[i]]) && SetKeys(Key(at), names)[i] == Key(at + [names[i]])
    {
      assert names[i] in v.fields.Keys;
      KeyOneMore(at, names[i]);
    }
  }

  lemma {:induction false} ElementKeysArePaths(items: seq<Doc>, i: nat, under: Fields, at: seq<string>)
    requires i <= |items| && (forall j :: 0 <= j < |items| ==> Writable(items[j])) && OrderFits(under) && SegmentsFit(at)
    ensures AreKeys(ElementKeys(items, i, under, Key(at)), at, ElementPaths(items, i, under))
    decreases under, 1, |items| - i
  {
    hide SegmentFits, Canonical, ValueFits, AreKeys, Key, SegmentsFit, OrderFits, Writable;
    if i == |items| {
      NoKeys(at);
    } else {
      var s, e := Itoa(i), items[i];
      ItoaCanonical(i);
      KeyOneMore(at, s);
      SegmentsFitOneMore(at, s);
      KeyHere(at + [s]);
      if e.Obj? { OrderedKeysArePaths(e.fields, under, at + [s]); }
      var keys := if e.Obj? then OrderedKeys(e.fields, under, Key(at + [s])) else [Key(at + [s])];
      var paths := if e.Obj? then OrderedPaths(e.fields, under) else [[]];
      KeysBelow(keys, at, s, paths);
      ElementKeysArePaths(items, i + 1, under, at);
      KeysTogether(keys, Below(s, paths), ElementKeys(items, i + 1, under, Key(at)), ElementPaths(items, i + 1, under), at);
    }
  }

  // The reading order.

  /** Where two paths part, the first of them goes to the field the table has
      earlier, to the lesser name of a set, or to the earlier element. */
  ghost predicate Before(order: Fields, p: seq<string>, q: seq<string>)
    decreases order, 0
  {
    && order.Fields? && p != [] && q != []
    && if p[0] == order.first.name then q[0] == p[0] ==> BeforeIn(order.first, p[1..], q[1..])
       else q[0] != order.first.name && Before(order.rest, p, q)
  }

  ghost predicate BeforeIn(f: Field, p: seq<string>, q: seq<string>)
    decreases f, 1
  {
    && p != [] && q != []
    && if f.isSet then Less(p[0], q[0])
       else if f.isList then
         && Canonical(p[0]) && Canonical(q[0])
         && (Atoi(p[0]) < Atoi(q[0]) || (p[0] == q[0] && Before(f.under, p[1..], q[1..])))
       else Before(f.under, p, q)
  }

  lemma {:induction false} NotBeforeItself(order: Fields, p: seq<string>)
    ensures !Before(order, p, p)
    decreases order, 0
  {
    if order.Fields? && p != [] {
      NotBeforeItself(order.rest, p);
      NotBeforeItselfIn(order.first, p[1..]);
    }
  }

  lemma {:induction false} NotBeforeItselfIn(f: Field, p: seq<string>)
    ensures !BeforeIn(f, p, p)
    decreases f, 1
  {
    hide Canonical;
    if p != [] {
      LessIrreflexive(p[0]);
      NotBeforeItself(f.under, p[1..]);
      NotBeforeItself(f.under, p);
    }
  }

  ghost predicate Ordered(order: Fields, paths: seq<seq<string>>) {
    forall i, j :: 0 <= i < j < |paths| ==> Before(order, paths[i], paths[j])
  }

  ghost predicate OrderedIn(f: Field, paths: seq<seq<string>>) {
    forall i, j :: 0 <= i < j < |paths| ==> BeforeIn(f, paths[i], paths[j])
  }

  ghost predicate AllNamed(order: Fields, paths: seq<seq<string>>) {
    forall i :: 0 <= i < |paths| ==> paths[i] != [] && Names(order, paths[i][0])
  }

  /** The table names keys in the reading order, so none twice. */
  lemma {:induction false} PathsOrdered(fields: map<string, Doc>, order: Fields)
    requires OrderFits(order)
    ensures Ordered(order, OrderedPaths(fields, order)) && AllNamed(order, OrderedPaths(fields, order))
    decreases order, 0
  {
    hide SegmentFits, BeforeIn;
    if order.Fields? {
      var f := order.first;
      PathsOrdered(fields, order.rest);
      if f.name in fields {
        FieldOrdered(fields[f.name], f);
        FirstThenRest(order, FieldPaths(fields[f.name], f), OrderedPaths(fields, order.rest));
      } else {
        FirstThenRest(order, [], OrderedPaths(fields, order.rest));
        assert OrderedPaths(fields, order) == Below(f.name, []) + OrderedPaths(fields, order.rest);
      }
    }
  }

  lemma FirstThenRest(order: Fields, first: seq<seq<string>>, rest: seq<seq<string>>)
    requires order.Fields? && OrderFits(order) && OrderedIn(order.first, first)
    requires Ordered(order.rest, rest) && AllNamed(order.rest, rest)
    ensures Ordered(order, Below(order.first.name, first) + rest) && AllNamed(order, Below(order.first.name, first) + rest)
  {
    hide SegmentFits, BeforeIn;
    var f := order.first;
    var paths := Below(f.name, first) + rest;
    forall i, j | 0 <= i < j < |paths| ensures Before(order, paths[i], paths[j]) {
      if j < |first| {
        assert paths[i][1..] == first[i] && paths[j][1..] == first[j];
      } else if i >= |first| {
        assert Before(order.rest, rest[i - |first|], rest[j - |first|]);
      }
    }
  }

  lemma {:induction false} FieldOrdered(v: Doc, f: Field)
    requires OrderFits(f.under)
    ensures OrderedIn(f, FieldPaths(v, f))
    decreases f, 1
  {
    hide SegmentFits, OrderFits, Canonical, Below, Less;
    if f.isSet {
    } else if f.isList {
      if v.Arr? { ElementsOrdered(v.items, 0, f); }
    } else if f.under != NoFields && v.Obj? {
      PathsOrdered(v.fields, f.under);
      var paths := OrderedPaths(v.fields, f.under);
      forall i, j | 0 <= i < j < |paths| ensures BeforeIn(f, paths[i], paths[j]) {
        assert Before(f.under, paths[i], paths[j]);
      }
    }
  }

  lemma {:induction false} ElementsOrdered(items: seq<Doc>, i: nat, f: Field)
    requires i <= |items| && f.isList && !f.isSet && OrderFits(f.under)
    ensures OrderedIn(f, ElementPaths(items, i, f.under)) && From(ElementPaths(items, i, f.under), i)
    decreases f, 0, |items| - i
  {
    hide OrderFits, Canonical, Before, BeforeIn, Itoa;
    if i < |items| {
      ElementsOrdered(items, i + 1, f);
      var here := if items[i].Obj? then OrderedPaths(items[i].fields, f.under) else [[]];
      if items[i].Obj? { PathsOrdered(items[i].fields, f.under); }
      ElementThenRest(f, i, here, ElementPaths(items, i + 1, f.under));
    }
  }

  ghost predicate From(paths: seq<seq<string>>, i: nat) {
    forall k :: 0 <= k < |paths| ==> paths[k] != [] && Canonical(paths[k][0]) && Atoi(paths[k][0]) >= i
  }

  lemma ElementThenRest(f: Field, n: nat, here: seq<seq<string>>, rest: seq<seq<string>>)
    requires f.isList && !f.isSet && Ordered(f.under, here) && OrderedIn(f, rest) && From(rest, n + 1)
    ensures OrderedIn(f, Below(Itoa(n), here) + rest) && From(Below(Itoa(n), here) + rest, n)
  {
    hide OrderFits, Canonical, Before, BeforeIn, Itoa, Atoi;
    ItoaCanonical(n);
    AtoiItoa(n);
    var paths := Below(Itoa(n), here) + rest;
    forall j, k | 0 <= j < k < |paths| ensures BeforeIn(f, paths[j], paths[k]) {
      if k < |here| {
        SameElement(f, Itoa(n), here[j], here[k]);
      } else if j < |here| {
        EarlierElement(f, paths[j], paths[k]);
      } else {
        assert BeforeIn(f, rest[j - |here|], rest[k - |here|]);
      }
    }
  }

  lemma SameElement(f: Field, s: string, p: seq<string>, q: seq<string>)
    requires f.isList && !f.isSet && Canonical(s) && Before(f.under, p, q)
    ensures BeforeIn(f, [s] + p, [s] + q)
  {
    hide Canonical, Before;
    assert ([s] + p)[1..] == p && ([s] + q)[1..] == q;
  }

  lemma EarlierElement(f: Field, p: seq<string>, q: seq<string>)
    requires f.isList && !f.isSet && p != [] && q != [] && Canonical(p[0]) && Canonical(q[0]) && Atoi(p[0]) < Atoi(q[0])
    ensures BeforeIn(f, p, q)
  {
    hide Canonical, Before;
  }

  // The statement's own table.

  lemma NamesOneOf(f: Field, rest: Fields, name: string)
    ensures Names(Fields(f, rest), name) <==> f.name == name || Names(rest, name)
  {
  }

  lemma OrderFitsOf(claim: Field)
    requires claim.name == "predicate" && OrderFits(claim.under)
    ensures OrderFits(OrderOf(claim))
  {
    var provenance := Fields(ProvenanceOrder(), NoFields);
    assert OrderFits(ProvenanceOrder().under);
    assert !Names(provenance, "predicate");
    var last := Fields(claim, provenance);
    assert OrderFits(last);
    NamesOneOf(claim, provenance, "predicateType");
    var tail := Fields(Leaf("predicateType"), last);
    assert OrderFits(tail);
    NamesOneOf(claim, provenance, "subject");
    assert !Names(tail, "subject");
  }

  lemma PureFits()
    ensures OrderFits(PureOrder().under)
  {
  }

  lemma EffectFits()
    ensures OrderFits(EffectOrder().under)
  {
  }

  lemma TransferFits()
    ensures OrderFits(TransferOrder().under)
  {
    assert OrderFits(VerdictOrder());
  }

  lemma TableFits(predicateType: string)
    ensures TableFor(predicateType).Some? ==> OrderFits(TableFor(predicateType).value)
  {
    hide OrderFits, OrderOf;
    PureFits();
    EffectFits();
    TransferFits();
    OrderFitsOf(PureOrder());
    OrderFitsOf(EffectOrder());
    OrderFitsOf(TransferOrder());
  }
}
