/** Plist trees sent to cryptexd as XPC objects (ffi/src/cryptexd.rs, idevice/src/xpc/format.rs).

    The daemon wants every non-negative integer as a uint64. `ToXpcUnsigned` performs that
    normalisation; `ToPlist` is the library's own way back; `FromPlist` is the library's plain
    conversion, which the normalisation falls back on for everything that holds no integer.
    A panic of the Rust code is modelled as `None`. */
module Plist {
  import opened Prelude

  const I64_MIN: int := -0x8000_0000_0000_0000
  const I64_MAX: int := 0x7fff_ffff_ffff_ffff
  const U64_MAX: int := 0xffff_ffff_ffff_ffff

  type I64 = i: int | I64_MIN <= i <= I64_MAX
  type U64 = u: int | 0 <= u <= U64_MAX
  /** A plist integer was built from an i64 or from a u64. */
  type PlistInt = i: int | I64_MIN <= i <= U64_MAX

  datatype Entry = Entry(key: string, value: Value)
  datatype XEntry = XEntry(key: string, value: XPCObject)

  datatype Value =
    | Array(items: seq<Value>)
    | Dictionary(entries: seq<Entry>)
    | Boolean(flag: bool)
    | Data(bytes: seq<byte>)
    | Date(nanos: int)
    | Real(number: real)
    | Integer(i: PlistInt)
    | String(text: string)
    | Uid(uid: U64)

  datatype XPCObject =
    | XNull
    | XBool(flag: bool)
    | XDictionary(entries: seq<XEntry>)
    | XArray(items: seq<XPCObject>)
    | XDouble(number: real)
    | XInt64(i: I64)
    | XUInt64(u: U64)
    | XDate(nanos: int)
    | XString(text: string)
    | XData(bytes: seq<byte>)
    | XUuid(text: string)
    | XFileTransfer(msgId: U64, data: XPCObject)

  function AsUnsigned(i: PlistInt): Option<U64> {
    if 0 <= i then Some(i) else None
  }

  function AsSigned(i: PlistInt): Option<I64> {
    if i <= I64_MAX then Some(i) else None
  }

  function UnwrapOrDefault(i: Option<I64>): I64 {
    match i case Some(v) => v case None => 0
  }

  // ----- the plain conversion -----

  function FromPlist(v: Value): Option<XPCObject>
    decreases v, 0
  {
    match v
    case Array(a) => (match FromItems(a) case Some(xs) => Some(XArray(xs)) case None => None)
    case Dictionary(d) => (match FromEntries(d) case Some(xs) => Some(XDictionary(xs)) case None => None)
    case Boolean(b) => Some(XBool(b))
    case Data(b) => Some(XData(b))
    case Real(r) => Some(XDouble(r))
    case Integer(i) => (match AsSigned(i) case Some(s) => Some(XInt64(s)) case None => None)
    case String(s) => Some(XString(s))
    case Date(_) => None
    case Uid(_) => None
  }

  function FromItems(a: seq<Value>): Option<seq<XPCObject>>
    decreases a, 1
  {
    if a == [] then Some([])
    else match (FromPlist(a[0]), FromItems(a[1..]))
      case (Some(x), Some(xs)) => Some([x] + xs)
      case _ => None
  }

  function FromEntries(d: seq<Entry>): Option<seq<XEntry>>
    decreases d, 1
  {
    if d == [] then Some([])
    else match (FromPlist(d[0].value), FromEntries(d[1..]))
      case (Some(x), Some(xs)) => Some([XEntry(d[0].key, x)] + xs)
      case _ => None
  }

  // ----- the normalisation -----

  function ToXpcUnsigned(v: Value): Option<XPCObject>
    decreases v, 0
  {
    match v
    case Integer(i) => (
      match AsUnsigned(i)
      case Some(u) => Some(XUInt64(u))
      case None => Some(XInt64(UnwrapOrDefault(AsSigned(i)))))
    case Array(a) => (match XpcItems(a) case Some(xs) => Some(XArray(xs)) case None => None)
    case Dictionary(d) => (match XpcEntries(d) case Some(xs) => Some(XDictionary(xs)) case None => None)
    case _ => FromPlist(v)
  }

  function XpcItems(a: seq<Value>): Option<seq<XPCObject>>
    decreases a, 1
  {
    if a == [] then Some([])
    else match (ToXpcUnsigned(a[0]), XpcItems(a[1..]))
      case (Some(x), Some(xs)) => Some([x] + xs)
      case _ => None
  }

  function XpcEntries(d: seq<Entry>): Option<seq<XEntry>>
    decreases d, 1
  {
    if d == [] then Some([])
    else match (ToXpcUnsigned(d[0].value), XpcEntries(d[1..]))
      case (Some(x), Some(xs)) => Some([XEntry(d[0].key, x)] + xs)
      case _ => None
  }

  // ----- the way back -----

  function ToPlist(x: XPCObject): Value
    decreases x, 0
  {
    match x
    case XNull => String("")
    case XBool(b) => Boolean(b)
    case XUuid(s) => String(s)
    case XDouble(r) => Real(r)
    case XUInt64(u) => Integer(u)
    case XInt64(i) => Integer(i)
    case XDate(d) => Date(d)
    case XString(s) => String(s)
    case XData(b) => Data(b)
    case XArray(xs) => Array(PlistItems(xs))
    case XDictionary(xs) => Dictionary(PlistEntries(xs))
    case XFileTransfer(id, data) => Dictionary([Entry("msg_id", Integer(id)), Entry("data", ToPlist(data))])
  }

  function PlistItems(xs: seq<XPCObject>): seq<Value>
    decreases xs, 1
  {
    if xs == [] then [] else [ToPlist(xs[0])] + PlistItems(xs[1..])
  }

  function PlistEntries(xs: seq<XEntry>): seq<Entry>
    decreases xs, 1
  {
    if xs == [] then [] else [Entry(xs[0].key, ToPlist(xs[0].value))] + PlistEntries(xs[1..])
  }

  // ----- when the conversions succeed -----

  /** Dates and UIDs have no XPC form in this library. */
  predicate Representable(v: Value) {
    match v
    case Array(a) => forall k :: 0 <= k < |a| ==> Representable(a[k])
    case Dictionary(d) => forall k :: 0 <= k < |d| ==> Representable(d[k].value)
    case Date(_) => false
    case Uid(_) => false
    case _ => true
  }

  /** Every integer in the tree fits an i64. */
  predicate FitsSigned(v: Value) {
    match v
    case Array(a) => forall k :: 0 <= k < |a| ==> FitsSigned(a[k])
    case Dictionary(d) => forall k :: 0 <= k < |d| ==> FitsSigned(d[k].value)
    case Integer(i) => i <= I64_MAX
    case _ => true
  }

  /** No int64 in the tree carries a value a uint64 could carry. */
  predicate NoUnsignedInt64(x: XPCObject) {
    match x
    case XInt64(i) => i < 0
    case XArray(xs) => forall k :: 0 <= k < |xs| ==> NoUnsignedInt64(xs[k])
    case XDictionary(xs) => forall k :: 0 <= k < |xs| ==> NoUnsignedInt64(xs[k].value)
    case XFileTransfer(_, data) => NoUnsignedInt64(data)
    case _ => true
  }

  /** The normalisation panics on dates and UIDs, and on nothing else; what it produces
      converts back to the very tree it came from. So each integer keeps its value, arrays
      their length and order, dictionaries their keys and order. */
  lemma {:induction false} RoundTrip(v: Value)
    ensures ToXpcUnsigned(v).Some? <==> Representable(v)
    ensures ToXpcUnsigned(v).Some? ==> ToPlist(ToXpcUnsigned(v).value) == v
    ensures ToXpcUnsigned(v).Some? ==> NoUnsignedInt64(ToXpcUnsigned(v).value)
    decreases v, 0
  {
    match v
    case Array(a) => RoundTripItems(a);
    case Dictionary(d) => RoundTripEntries(d);
    case _ =>
  }

  lemma {:induction false} RoundTripItems(a: seq<Value>)
    ensures XpcItems(a).Some? <==> forall k :: 0 <= k < |a| ==> Representable(a[k])
    ensures XpcItems(a).Some? ==> PlistItems(XpcItems(a).value) == a
    ensures XpcItems(a).Some? ==> forall k :: 0 <= k < |XpcItems(a).value| ==> NoUnsignedInt64(XpcItems(a).value[k])
    decreases a, 1
  {
    if a != [] {
      RoundTrip(a[0]);
      RoundTripItems(a[1..]);
      assert a == [a[0]] + a[1..];
    }
  }

  lemma {:induction false} RoundTripEntries(d: seq<Entry>)
    ensures XpcEntries(d).Some? <==> forall k :: 0 <= k < |d| ==> Representable(d[k].value)
    ensures XpcEntries(d).Some? ==> PlistEntries(XpcEntries(d).value) == d
    ensures XpcEntries(d).Some? ==> forall k :: 0 <= k < |XpcEntries(d).value| ==> NoUnsignedInt64(XpcEntries(d).value[k].value)
    decreases d, 1
  {
    if d != [] {
      RoundTrip(d[0].value);
      RoundTripEntries(d[1..]);
      assert d == [d[0]] + d[1..];
    }
  }

  // ----- what becomes of each node -----

  /** The object says what the tree says, node by node: each kind of node has one kind of object, arrays
      correspond item by item, dictionaries key by key and value by value. With `unsigned`, an integer
      is a uint64 exactly when it is not negative; without, it is always an int64. */
  predicate Matches(v: Value, x: XPCObject, unsigned: bool) {
    match v
    case Boolean(b) => x == XBool(b)
    case Data(b) => x == XData(b)
    case Real(r) => x == XDouble(r)
    case String(s) => x == XString(s)
    case Integer(i) => if unsigned && 0 <= i then x.XUInt64? && x.u == i else x.XInt64? && x.i == i
    case Array(a) => x.XArray? && |x.items| == |a| && forall k :: 0 <= k < |a| ==> Matches(a[k], x.items[k], unsigned)
    case Dictionary(d) => (
      && x.XDictionary? && |x.entries| == |d|
      && forall k :: 0 <= k < |d| ==> x.entries[k].key == d[k].key && Matches(d[k].value, x.entries[k].value, unsigned))
    case _ => false
  }

  /** No null, UUID, date or file transfer anywhere in the object. */
  predicate OnlyPlistKinds(x: XPCObject) {
    match x
    case XNull => false
    case XUuid(_) => false
    case XDate(_) => false
    case XFileTransfer(_, _) => false
    case XArray(xs) => forall k :: 0 <= k < |xs| ==> OnlyPlistKinds(xs[k])
    case XDictionary(xs) => forall k :: 0 <= k < |xs| ==> OnlyPlistKinds(xs[k].value)
    case _ => true
  }

  /** The normalisation yields an object exactly when some object says what the tree says with unsigned
      integers, and yields that very object. */
  lemma {:induction false} NormalisedExactly(v: Value, x: XPCObject)
    ensures ToXpcUnsigned(v) == Some(x) <==> Matches(v, x, true)
    decreases v, 0
  {
    match v
    case Array(a) => if x.XArray? { NormalisedItems(a, x.items); }
    case Dictionary(d) => if x.XDictionary? { NormalisedEntries(d, x.entries); }
    case _ =>
  }

  lemma {:induction false} NormalisedItems(a: seq<Value>, xs: seq<XPCObject>)
    ensures XpcItems(a) == Some(xs) <==> |xs| == |a| && forall k :: 0 <= k < |a| ==> Matches(a[k], xs[k], true)
    decreases a, 1
  {
    if a != [] && xs != [] {
      NormalisedExactly(a[0], xs[0]);
      NormalisedItems(a[1..], xs[1..]);
      assert xs == [xs[0]] + xs[1..];
      assert forall k :: 1 <= k < |a| ==> a[k] == a[1..][k - 1];
      assert forall k :: 1 <= k < |xs| ==> xs[k] == xs[1..][k - 1];
    }
  }

  lemma {:induction false} NormalisedEntries(d: seq<Entry>, xs: seq<XEntry>)
    ensures XpcEntries(d) == Some(xs) <==>
      |xs| == |d| && forall k :: 0 <= k < |d| ==> xs[k].key == d[k].key && Matches(d[k].value, xs[k].value, true)
    decreases d, 1
  {
    if d != [] && xs != [] {
      NormalisedExactly(d[0].value, xs[0].value);
      NormalisedEntries(d[1..], xs[1..]);
      assert xs == [xs[0]] + xs[1..];
      assert forall k :: 1 <= k < |d| ==> d[k] == d[1..][k - 1];
      assert forall k :: 1 <= k < |xs| ==> xs[k] == xs[1..][k - 1];
    }
  }

  /** So does the plain conversion, with signed integers. */
  lemma {:induction false} PlainExactly(v: Value, x: XPCObject)
    ensures FromPlist(v) == Some(x) <==> Matches(v, x, false)
    decreases v, 0
  {
    match v
    case Array(a) => if x.XArray? { PlainItemsExactly(a, x.items); }
    case Dictionary(d) => if x.XDictionary? { PlainEntriesExactly(d, x.entries); }
    case _ =>
  }

  lemma {:induction false} PlainItemsExactly(a: seq<Value>, xs: seq<XPCObject>)
    ensures FromItems(a) == Some(xs) <==> |xs| == |a| && forall k :: 0 <= k < |a| ==> Matches(a[k], xs[k], false)
    decreases a, 1
  {
    if a != [] && xs != [] {
      PlainExactly(a[0], xs[0]);
      PlainItemsExactly(a[1..], xs[1..]);
      assert xs == [xs[0]] + xs[1..];
      assert forall k :: 1 <= k < |a| ==> a[k] == a[1..][k - 1];
      assert forall k :: 1 <= k < |xs| ==> xs[k] == xs[1..][k - 1];
    }
  }

  lemma {:induction false} PlainEntriesExactly(d: seq<Entry>, xs: seq<XEntry>)
    ensures FromEntries(d) == Some(xs) <==>
      |xs| == |d| && forall k :: 0 <= k < |d| ==> xs[k].key == d[k].key && Matches(d[k].value, xs[k].value, false)
    decreases d, 1
  {
    if d != [] && xs != [] {
      PlainExactly(d[0].value, xs[0].value);
      PlainEntriesExactly(d[1..], xs[1..]);
      assert xs == [xs[0]] + xs[1..];
      assert forall k :: 1 <= k < |d| ==> d[k] == d[1..][k - 1];
      assert forall k :: 1 <= k < |xs| ==> xs[k] == xs[1..][k - 1];
    }
  }

  /** An object that says what a plist says is made of the kinds a plist has. */
  lemma {:induction false} MatchesOnlyPlistKinds(v: Value, x: XPCObject, unsigned: bool)
    requires Matches(v, x, unsigned)
    ensures OnlyPlistKinds(x) && Representable(v)
    decreases v
  {
    match v
    case Array(a) =>
      forall k | 0 <= k < |a| ensures OnlyPlistKinds(x.items[k]) && Representable(a[k]) {
        MatchesOnlyPlistKinds(a[k], x.items[k], unsigned);
      }
    case Dictionary(d) =>
      forall k | 0 <= k < |d| ensures OnlyPlistKinds(x.entries[k].value) && Representable(d[k].value) {
        MatchesOnlyPlistKinds(d[k].value, x.entries[k].value, unsigned);
      }
    case _ =>
  }

  /** Two different plist trees never become the same XPC object. */
  lemma Injective(v: Value, w: Value)
    requires ToXpcUnsigned(v).Some? && ToXpcUnsigned(v) == ToXpcUnsigned(w)
    ensures v == w
  {
    RoundTrip(v);
    RoundTrip(w);
  }

  /** The fallback for an integer that is neither unsigned nor signed is never taken. */
  lemma FallbackNeverUsed(i: PlistInt)
    ensures AsUnsigned(i).None? ==> AsSigned(i) == Some(i)
    ensures ToXpcUnsigned(Integer(i)) == Some(if i >= 0 then XUInt64(i) else XInt64(i))
  {
  }

  /** The plain conversion succeeds on strictly fewer trees: it also panics on every integer
      above the i64 range. Where it succeeds it stands for the same plist. */
  lemma {:induction false} PlainConversion(v: Value)
    ensures FromPlist(v).Some? <==> Representable(v) && FitsSigned(v)
    ensures FromPlist(v).Some? ==> ToPlist(FromPlist(v).value) == v
    decreases v, 0
  {
    match v
    case Array(a) => PlainItems(a);
    case Dictionary(d) => PlainEntries(d);
    case _ =>
  }

  lemma {:induction false} PlainItems(a: seq<Value>)
    ensures FromItems(a).Some? <==> forall k :: 0 <= k < |a| ==> Representable(a[k]) && FitsSigned(a[k])
    ensures FromItems(a).Some? ==> PlistItems(FromItems(a).value) == a
    decreases a, 1
  {
    if a != [] {
      PlainConversion(a[0]);
      PlainItems(a[1..]);
      assert a == [a[0]] + a[1..];
    }
  }

  lemma {:induction false} PlainEntries(d: seq<Entry>)
    ensures FromEntries(d).Some? <==> forall k :: 0 <= k < |d| ==> Representable(d[k].value) && FitsSigned(d[k].value)
    ensures FromEntries(d).Some? ==> PlistEntries(FromEntries(d).value) == d
    decreases d, 1
  {
    if d != [] {
      PlainConversion(d[0].value);
      PlainEntries(d[1..]);
      assert d == [d[0]] + d[1..];
    }
  }

  lemma SameHeadAndTail<T>(p: seq<T>, q: seq<T>)
    requires p != [] && q != []
    ensures p == q <==> p[0] == q[0] && p[1..] == q[1..]
  {
    assert p == [p[0]] + p[1..] && q == [q[0]] + q[1..];
  }

  /** The normalisation changes something exactly when the plain conversion would send some
      non-negative integer as an int64. */
  lemma {:induction false} NormalisationMatters(v: Value)
    requires FromPlist(v).Some?
    ensures ToXpcUnsigned(v).Some?
    ensures ToXpcUnsigned(v) == FromPlist(v) <==> NoUnsignedInt64(FromPlist(v).value)
    decreases v, 0
  {
    match v
    case Array(a) => NormalisationMattersInItems(a);
    case Dictionary(d) => NormalisationMattersInEntries(d);
    case _ =>
  }

  lemma {:induction false} NormalisationMattersInItems(a: seq<Value>)
    requires FromItems(a).Some?
    ensures XpcItems(a).Some?
    ensures XpcItems(a) == FromItems(a) <==>
      forall k :: 0 <= k < |FromItems(a).value| ==> NoUnsignedInt64(FromItems(a).value[k])
    decreases a, 1
  {
    if a != [] {
      NormalisationMatters(a[0]);
      NormalisationMattersInItems(a[1..]);
      SameHeadAndTail(FromItems(a).value, XpcItems(a).value);
    }
  }

  lemma {:induction false} NormalisationMattersInEntries(d: seq<Entry>)
    requires FromEntries(d).Some?
    ensures XpcEntries(d).Some?
    ensures XpcEntries(d) == FromEntries(d) <==>
      forall k :: 0 <= k < |FromEntries(d).value| ==> NoUnsignedInt64(FromEntries(d).value[k].value)
    decreases d, 1
  {
    if d != [] {
      NormalisationMatters(d[0].value);
      NormalisationMattersInEntries(d[1..]);
      SameHeadAndTail(FromEntries(d).value, XpcEntries(d).value);
    }
  }

  // ----- filling the dictionary -----

  predicate DistinctKeys(d: seq<Entry>) {
    forall i, j :: 0 <= i < j < |d| ==> d[i].key != d[j].key
  }

  /** IndexMap::insert: a known key keeps its place and takes the new value, a new key goes last. */
  function Insert(d: seq<XEntry>, key: string, value: XPCObject): (r: seq<XEntry>)
    ensures (forall k :: 0 <= k < |d| ==> d[k].key != key) ==> r == d + [XEntry(key, value)]
    ensures forall k :: 0 <= k < |d| && d[k].key == key && (forall j :: 0 <= j < k ==> d[j].key != key) ==>
      r == d[k := XEntry(key, value)]
  {
    if d == [] then [XEntry(key, value)]
    else if d[0].key == key then [XEntry(key, value)] + d[1..]
    else [d[0]] + Insert(d[1..], key, value)
  }

  function Prepend(filled: seq<XEntry>, rest: Option<seq<XEntry>>): Option<seq<XEntry>> {
    match rest case Some(xs) => Some(filled + xs) case None => None
  }

  /** Moving one converted entry from the rest to the filled part. */
  lemma OneMoreEntry(filled: seq<XEntry>, dict: seq<Entry>, i: nat)
    requires i < |dict|
    ensures ToXpcUnsigned(dict[i].value).None? ==> Prepend(filled, XpcEntries(dict[i..])) == None
    ensures ToXpcUnsigned(dict[i].value).Some? ==>
      Prepend(filled, XpcEntries(dict[i..])) ==
        Prepend(filled + [XEntry(dict[i].key, ToXpcUnsigned(dict[i].value).value)], XpcEntries(dict[i + 1..]))
  {
    assert dict[i..][0] == dict[i] && dict[i..][1..] == dict[i + 1..];
    var rest := XpcEntries(dict[i + 1..]);
    if ToXpcUnsigned(dict[i].value).Some? && rest.Some? {
      var e := XEntry(dict[i].key, ToXpcUnsigned(dict[i].value).value);
      assert filled + ([e] + rest.value) == filled + [e] + rest.value;
    }
  }

  /** Inserting the converted values one by one gives the entries in their original order. */
  method ToXpcDictionary(dict: seq<Entry>) returns (out: Option<seq<XEntry>>)
    requires DistinctKeys(dict)
    ensures out == XpcEntries(dict)
  {
    var filled: seq<XEntry> := [];
    ghost var whole := XpcEntries(dict);
    assert dict[0..] == dict;
    assert whole.Some? ==> [] + whole.value == whole.value;
    for i := 0 to |dict|
      invariant |filled| == i
      invariant forall k :: 0 <= k < i ==> filled[k].key == dict[k].key
      invariant whole == Prepend(filled, XpcEntries(dict[i..]))
    {
      OneMoreEntry(filled, dict, i);
      var converted := ToXpcUnsigned(dict[i].value);
      if converted.None? {
        return None;
      }
      filled := Insert(filled, dict[i].key, converted.value);
    }
    assert dict[|dict|..] == [] && filled + [] == filled;
    return Some(filled);
  }
}
