/** The documents a statement is composed as (attest/text.go): what one may
    hold, and its leaves, each a path of segments and a value. */
module StatementDoc {
  import opened Wrappers
  import opened Strings
  import opened Decimal
  import Utf8

  /** A decoded JSON document. */
  datatype Doc =
    | Str(value: string)
    | Obj(fields: map<string, Doc>)
    | Arr(items: seq<Doc>)
    | Number(text: string)
    | Bool(truth: bool)
    | Null

  const MAX_INT: nat := 0x7FFF_FFFF_FFFF_FFFF

  // What a line can carry.

  predicate IsSegmentByte(c: char) {
    'a' <= c <= 'z' || 'A' <= c <= 'Z' || '0' <= c <= '9' || c == '-'
  }

  /** checkSegment: letters, digits and dashes, not opening with a digit. */
  predicate SegmentFits(s: string) {
    s != "" && !IsDigit(s[0]) && forall c :: c in s ==> IsSegmentByte(c)
  }

  /** checkKeyOrIndex: a segment, or an index with no leading zero that an
      int can hold. */
  predicate KeyOrIndexFits(s: string) {
    if s != "" && IsDigit(s[0]) then Canonical(s) && Atoi(s) <= MAX_INT else SegmentFits(s)
  }

  /** checkValue: valid UTF-8, not empty, with no ASCII control character. */
  predicate ValueFits(s: string) {
    s != "" && Utf8.Valid(s) && forall c :: c in s ==> ' ' <= c && c as nat != 0x7F
  }

  /** A document with a line for each leaf: strings under named fields and
      indices, and nothing empty. */
  ghost predicate Writable(d: Doc) {
    match d
    case Str(s) => ValueFits(s)
    case Obj(fields) => fields.Keys != {} && forall k :: k in fields ==> SegmentFits(k) && Writable(fields[k])
    case Arr(items) => items != [] && forall i :: 0 <= i < |items| ==> Writable(items[i])
    case _ => false
  }

  /** No array is longer than an int can count, as none in Go is. */
  ghost predicate Representable(d: Doc) {
    match d
    case Obj(fields) => forall k :: k in fields ==> Representable(fields[k])
    case Arr(items) => |items| <= MAX_INT && forall i :: 0 <= i < |items| ==> Representable(items[i])
    case _ => true
  }

  /** The element a segment indexes. */
  ghost predicate Indexes(items: seq<Doc>, s: string) {
    Canonical(s) && Atoi(s) < |items|
  }

  ghost function Item(items: seq<Doc>, s: string): (d: Doc)
    requires Indexes(items, s)
    ensures d in items
  {
    items[Atoi(s)]
  }

  /** The value a document holds at a path of segments. */
  ghost function LeafAt(d: Doc, at: seq<string>): Option<string>
    decreases |at|
  {
    match d
    case Str(s) => if at == [] then Some(s) else None
    case Obj(fields) => if at != [] && at[0] in fields then LeafAt(fields[at[0]], at[1..]) else None
    case Arr(items) => if at != [] && Indexes(items, at[0]) then LeafAt(Item(items, at[0]), at[1..]) else None
    case _ => None
  }

  ghost predicate SegmentsFit(at: seq<string>) {
    forall s :: s in at ==> SegmentFits(s) || Canonical(s)
  }

  ghost predicate KeysFit(at: seq<string>) {
    forall s :: s in at ==> KeyOrIndexFits(s)
  }

  lemma {:induction false} LeafFits(d: Doc, at: seq<string>)
    requires Writable(d) && LeafAt(d, at).Some?
    ensures ValueFits(LeafAt(d, at).value) && SegmentsFit(at)
    ensures Representable(d) ==> KeysFit(at)
    decreases |at|
  {
    hide SegmentFits, ValueFits, Canonical, KeyOrIndexFits;
    if d.Obj? {
      LeafFits(d.fields[at[0]], at[1..]);
      SegmentIsKey(at[0]);
      assert forall s :: s in at <==> s == at[0] || s in at[1..];
    } else if d.Arr? {
      LeafFits(Item(d.items, at[0]), at[1..]);
      IndexIsKey(at[0]);
      assert forall s :: s in at <==> s == at[0] || s in at[1..];
    }
  }

  lemma SegmentIsKey(s: string)
    requires SegmentFits(s)
    ensures KeyOrIndexFits(s) && !Canonical(s)
  {
  }

  lemma IndexIsKey(s: string)
    requires Canonical(s)
    ensures Atoi(s) <= MAX_INT <==> KeyOrIndexFits(s)
  {
  }

  /** No leaf is above another. */
  lemma {:induction false} LeavesApart(d: Doc, at: seq<string>, more: seq<string>)
    requires LeafAt(d, at).Some? && more != []
    ensures LeafAt(d, at + more).None?
    decreases |at|
  {
    hide Indexes, Canonical;
    if at != [] {
      assert (at + more)[0] == at[0] && (at + more)[1..] == at[1..] + more;
      LeavesApart(if d.Obj? then d.fields[at[0]] else Item(d.items, at[0]), at[1..], more);
    }
  }

  lemma {:induction false} HasLeaf(d: Doc)
    requires Writable(d)
    ensures exists at :: LeafAt(d, at).Some?
  {
    hide SegmentFits, ValueFits, Canonical;
    if d.Str? {
      assert LeafAt(d, []).Some?;
    } else if d.Obj? {
      var k :| k in d.fields;
      HasLeaf(d.fields[k]);
      var at :| LeafAt(d.fields[k], at).Some?;
      assert ([k] + at)[1..] == at;
      assert LeafAt(d, [k] + at).Some?;
    } else {
      HasLeaf(d.items[0]);
      var at :| LeafAt(d.items[0], at).Some?;
      ItoaCanonical(0);
      AtoiItoa(0);
      assert ([Itoa(0)] + at)[1..] == at;
      assert LeafAt(d, [Itoa(0)] + at).Some?;
    }
  }

  // Keys.

  /** A key: its segments with a dot between each two. */
  function Key(at: seq<string>): string {
    Join(at, '.')
  }

  /** join: a segment put after a key, which at the root is empty. */
  function JoinKey(key: string, segment: string): string {
    if key == "" then segment else key + "." + segment
  }

  lemma SegmentHasNo(s: string)
    requires SegmentFits(s) || Canonical(s)
    ensures s != "" && '.' !in s && ' ' !in s && '\n' !in s
  {
  }

  /** A path of segments is one key, and a key one path. */
  lemma KeySplits(at: seq<string>)
    requires at != [] && SegmentsFit(at)
    ensures Split(Key(at), '.') == at
  {
    hide SegmentFits, Canonical;
    forall i | 0 <= i < |at| ensures '.' !in at[i] { SegmentHasNo(at[i]); }
    SplitJoin(at, '.');
  }

  lemma {:induction false} KeyHasNo(at: seq<string>)
    requires SegmentsFit(at)
    ensures ' ' !in Key(at) && '\n' !in Key(at)
    ensures at != [] ==> Key(at) != ""
  {
    hide SegmentFits, Canonical;
    if at != [] {
      SegmentHasNo(at[0]);
      assert forall s :: s in at[1..] ==> s in at;
      KeyHasNo(at[1..]);
    }
  }

  lemma KeyOneMore(at: seq<string>, s: string)
    requires SegmentsFit(at)
    ensures Key(at + [s]) == JoinKey(Key(at), s)
  {
    hide SegmentFits, Canonical;
    KeyHasNo(at);
    JoinOneMore(at, s, '.');
  }

  lemma KeysAreOne(a: seq<string>, b: seq<string>)
    requires a != [] && b != [] && SegmentsFit(a) && SegmentsFit(b) && Key(a) == Key(b)
    ensures a == b
  {
    KeySplits(a);
    KeySplits(b);
  }
}
