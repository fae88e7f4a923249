/** The snmprec tag table: each SNMP value kind is filed under the decimal
    sum of the class, format and number of the first tag of its ASN.1 tag
    set (section 2 of RFC 1902 for the SMI types, section 3 of RFC 1905 for
    the three exception values). */
module TagTable {
  import opened Wrappers
  import Decimal

  /** An ASN.1 tag as pyasn1 holds it: class and format are the bit values
      of the identifier octet, so they add up with the number. */
  datatype Tag = Tag(tagClass: nat, tagFormat: nat, tagId: nat)

  type TagSet = seq<Tag>

  const ClassUniversal: nat := 0x00
  const ClassApplication: nat := 0x40
  const ClassContext: nat := 0x80
  const FormatSimple: nat := 0x00
  const FormatConstructed: nat := 0x20

  /** pyasn1 compares tags on class and number only; the format bit takes
      no part in `==`. */
  predicate SameTag(a: Tag, b: Tag) {
    a.tagClass == b.tagClass && a.tagId == b.tagId
  }

  /** `==` on tag sets: the same number of tags, pairwise the same. */
  predicate SameTagSet(a: TagSet, b: TagSet) {
    |a| == |b| && forall i :: 0 <= i < |a| ==> SameTag(a[i], b[i])
  }

  datatype Kind =
    | Gauge32 | Integer32 | IpAddress | Null | ObjectIdentifier | OctetString
    | TimeTicks | Opaque | Counter32 | Counter64
    | NoSuchObject | NoSuchInstance | EndOfMibView

  /** The tag set of each kind; every one of them is implicitly tagged, so
      the set holds a single tag. */
  function TagSetOf(k: Kind): TagSet {
    match k
    case Integer32 => [Tag(ClassUniversal, FormatSimple, 2)]
    case OctetString => [Tag(ClassUniversal, FormatSimple, 4)]
    case Null => [Tag(ClassUniversal, FormatSimple, 5)]
    case ObjectIdentifier => [Tag(ClassUniversal, FormatSimple, 6)]
    case IpAddress => [Tag(ClassApplication, FormatSimple, 0)]
    case Counter32 => [Tag(ClassApplication, FormatSimple, 1)]
    case Gauge32 => [Tag(ClassApplication, FormatSimple, 2)]
    case TimeTicks => [Tag(ClassApplication, FormatSimple, 3)]
    case Opaque => [Tag(ClassApplication, FormatSimple, 4)]
    case Counter64 => [Tag(ClassApplication, FormatSimple, 6)]
    case NoSuchObject => [Tag(ClassContext, FormatSimple, 0)]
    case NoSuchInstance => [Tag(ClassContext, FormatSimple, 1)]
    case EndOfMibView => [Tag(ClassContext, FormatSimple, 2)]
  }

  /** The kinds in the order the table is filled. */
  const Kinds: seq<Kind> := [
    Gauge32, Integer32, IpAddress, Null, ObjectIdentifier, OctetString,
    TimeTicks, Opaque, Counter32, Counter64,
    NoSuchObject, NoSuchInstance, EndOfMibView
  ]

  function FirstTag(k: Kind): Tag {
    TagSetOf(k)[0]
  }

  /** `sum(tag)`: class, format and number added up. */
  function TagSum(t: Tag): nat {
    t.tagClass + t.tagFormat + t.tagId
  }

  /** `str(sum(tag))`: the key a tag is filed under. */
  function KeyOf(t: Tag): string {
    Decimal.Show(TagSum(t))
  }

  /** A key is the tag's sum written without leading zeros: read back as a
      number it gives the sum. */
  lemma KeyValue(t: Tag)
    ensures Decimal.Canonical(KeyOf(t)) && Decimal.Value(KeyOf(t)) == TagSum(t)
  {
    Decimal.ValueShow(TagSum(t));
  }

  function KindKey(k: Kind): string {
    KeyOf(FirstTag(k))
  }

  /** Each kind's first tag adds up to a different number, which also
      names the kind back. */
  function KindOfSum(n: nat): Option<Kind> {
    if n == 66 then Some(Gauge32) else if n == 2 then Some(Integer32)
    else if n == 64 then Some(IpAddress) else if n == 5 then Some(Null)
    else if n == 6 then Some(ObjectIdentifier) else if n == 4 then Some(OctetString)
    else if n == 67 then Some(TimeTicks) else if n == 68 then Some(Opaque)
    else if n == 65 then Some(Counter32) else if n == 70 then Some(Counter64)
    else if n == 128 then Some(NoSuchObject) else if n == 129 then Some(NoSuchInstance)
    else if n == 130 then Some(EndOfMibView) else None
  }

  lemma KindOfSumInverts(k: Kind)
    ensures KindOfSum(TagSum(FirstTag(k))) == Some(k)
  {
  }

  /** No two kinds share a key, so the derived numbering is a bijection. */
  lemma KindKeyInjective(a: Kind, b: Kind)
    ensures KindKey(a) == KindKey(b) ==> a == b
  {
    Decimal.ShowInjective(TagSum(FirstTag(a)), TagSum(FirstTag(b)));
    KindOfSumInverts(a);
    KindOfSumInverts(b);
  }

  /** One dict item: a key and the kind filed under it. */
  datatype Entry<V> = Entry(key: string, kind: V)

  /** A Python dict from keys to kinds, in insertion order. */
  type Table<V> = seq<Entry<V>>

  predicate DistinctKeys<V>(t: Table<V>) {
    forall i, j :: 0 <= i < j < |t| ==> t[i].key != t[j].key
  }

  predicate AbsentKey<V>(t: Table<V>, key: string) {
    forall i :: 0 <= i < |t| ==> t[i].key != key
  }

  lemma AbsentKeyTail<V>(t: Table<V>, key: string)
    requires |t| > 0 && AbsentKey(t, key)
    ensures AbsentKey(t[1..], key)
  {
    assert forall i :: 0 <= i < |t| - 1 ==> t[1..][i] == t[i + 1];
  }

  /** `t[key]`, or None when `key` is absent. */
  function Lookup<V>(t: Table<V>, key: string): Option<V>
    decreases |t|
  {
    if |t| == 0 then None
    else if t[0].key == key then Some(t[0].kind)
    else Lookup(t[1..], key)
  }

  /** What a lookup finds is the kind of an entry filed under the key. */
  lemma {:induction false} LookupSound<V>(t: Table<V>, key: string)
    ensures Lookup(t, key).Some? ==> exists i :: 0 <= i < |t| && t[i] == Entry(key, Lookup(t, key).value)
    decreases |t|
  {
    if |t| > 0 && t[0].key != key {
      var r := Lookup(t[1..], key);
      LookupSound(t[1..], key);
      if r.Some? {
        var j :| 0 <= j < |t| - 1 && t[1..][j] == Entry(key, r.value);
        assert t[j + 1] == t[1..][j];
      }
    } else if |t| > 0 {
      assert t[0] == Entry(key, Lookup(t, key).value);
    }
  }

  /** Lookup finds the first entry that carries the key. */
  lemma {:induction false} LookupFirst<V>(t: Table<V>, key: string, i: nat)
    requires i < |t| && t[i].key == key
    requires forall j :: 0 <= j < i ==> t[j].key != key
    ensures Lookup(t, key) == Some(t[i].kind)
    decreases i
  {
    if i > 0 {
      LookupFirst(t[1..], key, i - 1);
    }
  }

  /** Lookup finds nothing exactly for a key no entry carries. */
  lemma {:induction false} LookupAbsent<V>(t: Table<V>, key: string)
    ensures AbsentKey(t, key) <==> Lookup(t, key) == None
    decreases |t|
  {
    if |t| > 0 {
      LookupAbsent(t[1..], key);
      assert forall i :: 0 < i < |t| ==> t[i] == t[1..][i - 1];
    }
  }

  lemma DistinctTail<V>(t: Table<V>)
    requires |t| > 0 && DistinctKeys(t)
    ensures DistinctKeys(t[1..]) && AbsentKey(t[1..], t[0].key)
  {
    assert forall i :: 0 <= i < |t| - 1 ==> t[1..][i] == t[i + 1];
  }

  /** `t[key] = kind`: an existing key keeps its place and takes the new
      kind, a new key is appended. */
  function Store<V>(t: Table<V>, key: string, kind: V): (r: Table<V>)
    ensures Lookup(r, key) == Some(kind)
    ensures forall k :: k != key ==> Lookup(r, k) == Lookup(t, k)
    ensures forall k :: k != key && AbsentKey(t, k) ==> AbsentKey(r, k)
    ensures DistinctKeys(t) ==> DistinctKeys(r)
    decreases |t|
  {
    if |t| == 0 then [Entry(key, kind)]
    else if t[0].key == key then
      var r := [Entry(key, kind)] + t[1..];
      assert r[1..] == t[1..];
      assert forall i :: 0 < i < |t| ==> r[i] == t[i];
      r
    else
      var rest := Store(t[1..], key, kind);
      var r := [t[0]] + rest;
      assert r[1..] == rest;
      assert forall k :: k != key && AbsentKey(t, k) ==> AbsentKey(r, k) by {
        forall k | k != key && AbsentKey(t, k)
          ensures AbsentKey(r, k)
        {
          AbsentKeyTail(t, k);
          assert forall i :: 0 < i < |r| ==> r[i] == rest[i - 1];
        }
      }
      assert DistinctKeys(t) ==> DistinctKeys(r) by {
        if DistinctKeys(t) {
          DistinctTail(t);
          assert forall i :: 0 < i < |r| ==> r[i] == rest[i - 1];
        }
      }
      r
  }

  /** Storing a key the table already holds keeps every key in its place
      (dict order is unchanged). */
  lemma {:induction false} StoreKeepsPlace<V>(t: Table<V>, key: string, kind: V)
    requires !AbsentKey(t, key)
    ensures |Store(t, key, kind)| == |t|
    ensures forall i :: 0 <= i < |t| ==> Store(t, key, kind)[i].key == t[i].key
    decreases |t|
  {
    if t[0].key != key {
      var rest := t[1..];
      assert !AbsentKey(rest, key) by {
        var i :| 0 <= i < |t| && t[i].key == key;
        assert rest[i - 1] == t[i];
      }
      StoreKeepsPlace(rest, key, kind);
      var r := Store(t, key, kind);
      assert r == [t[0]] + Store(rest, key, kind);
      forall i | 0 < i < |t|
        ensures r[i].key == t[i].key
      {
        assert r[i] == Store(rest, key, kind)[i - 1] && t[i] == rest[i - 1];
      }
    }
  }

  /** Storing a key no entry carries appends it. */
  lemma {:induction false} StoreFresh<V>(t: Table<V>, key: string, kind: V)
    requires AbsentKey(t, key)
    ensures Store(t, key, kind) == t + [Entry(key, kind)]
    decreases |t|
  {
    if |t| > 0 {
      AbsentKeyTail(t, key);
      StoreFresh(t[1..], key, kind);
      assert t == [t[0]] + t[1..];
    }
  }

  /** The loop that fills the table: every kind is stored under its key. */
  function Build<V>(kinds: seq<V>, keyOf: V -> string): (t: Table<V>)
    ensures DistinctKeys(t)
    decreases |kinds|
  {
    if |kinds| == 0 then []
    else
      var k := kinds[|kinds| - 1];
      Store(Build(kinds[..|kinds| - 1], keyOf), keyOf(k), k)
  }

  /** On a key collision the kind stored last wins: a kind that no later
      kind shares its key with is what its key leads to. */
  lemma {:induction false} BuildLastWins<V>(kinds: seq<V>, keyOf: V -> string, i: nat)
    requires i < |kinds|
    requires forall j :: i < j < |kinds| ==> keyOf(kinds[j]) != keyOf(kinds[i])
    ensures Lookup(Build(kinds, keyOf), keyOf(kinds[i])) == Some(kinds[i])
    decreases |kinds|
  {
    var n := |kinds| - 1;
    if i < n {
      var init := kinds[..n];
      assert init[i] == kinds[i];
      BuildLastWins(init, keyOf, i);
    }
  }

  /** A key no kind carries is not in the table. */
  lemma {:induction false} BuildAbsent<V>(kinds: seq<V>, keyOf: V -> string, key: string)
    requires forall i :: 0 <= i < |kinds| ==> keyOf(kinds[i]) != key
    ensures Lookup(Build(kinds, keyOf), key) == None
    decreases |kinds|
  {
    if |kinds| > 0 {
      var init := kinds[..|kinds| - 1];
      assert forall i :: 0 <= i < |init| ==> init[i] == kinds[i];
      BuildAbsent(init, keyOf, key);
    }
  }

  /** The entries of a table filled from kinds with pairwise different keys:
      one per kind, in order. */
  function Entries<V>(kinds: seq<V>, keyOf: V -> string): Table<V> {
    seq(|kinds|, i requires 0 <= i < |kinds| => Entry(keyOf(kinds[i]), kinds[i]))
  }

  /** Without collisions the table lists every kind, in insertion order. */
  lemma {:induction false} BuildDistinct<V>(kinds: seq<V>, keyOf: V -> string)
    requires forall i, j :: 0 <= i < j < |kinds| ==> keyOf(kinds[i]) != keyOf(kinds[j])
    ensures Build(kinds, keyOf) == Entries(kinds, keyOf)
    decreases |kinds|
  {
    if |kinds| > 0 {
      var n := |kinds| - 1;
      var init := kinds[..n];
      BuildDistinct(init, keyOf);
      assert Entries(kinds, keyOf) == Entries(init, keyOf) + [Entry(keyOf(kinds[n]), kinds[n])];
      StoreFresh(Entries(init, keyOf), keyOf(kinds[n]), kinds[n]);
    }
  }

  /** `SnmprecGrammar.tagMap`. */
  const TagMap: Table<Kind> := Build(Kinds, KindKey)

  /** The position of each kind in the filling order. */
  function IndexOf(k: Kind): (i: nat)
    ensures i < |Kinds| && Kinds[i] == k
  {
    match k
    case Gauge32 => 0 case Integer32 => 1 case IpAddress => 2 case Null => 3
    case ObjectIdentifier => 4 case OctetString => 5 case TimeTicks => 6
    case Opaque => 7 case Counter32 => 8 case Counter64 => 9
    case NoSuchObject => 10 case NoSuchInstance => 11 case EndOfMibView => 12
  }

  lemma KindsDistinctKeys()
    ensures forall i, j :: 0 <= i < j < |Kinds| ==> KindKey(Kinds[i]) != KindKey(Kinds[j])
  {
    assert forall i :: 0 <= i < |Kinds| ==> IndexOf(Kinds[i]) == i;
    forall i, j | 0 <= i < j < |Kinds|
      ensures KindKey(Kinds[i]) != KindKey(Kinds[j])
    {
      KindKeyInjective(Kinds[i], Kinds[j]);
    }
  }

  lemma TagMapEntries()
    ensures TagMap == Entries(Kinds, KindKey)
  {
    KindsDistinctKeys();
    BuildDistinct(Kinds, KindKey);
  }

  /** With pyasn1's class constants the keys come out as below. */
  lemma KeysAsListed(k: Kind)
    ensures KindKey(k) == match k
      case Gauge32 => "66" case Integer32 => "2" case IpAddress => "64"
      case Null => "5" case ObjectIdentifier => "6" case OctetString => "4"
      case TimeTicks => "67" case Opaque => "68" case Counter32 => "65"
      case Counter64 => "70" case NoSuchObject => "128"
      case NoSuchInstance => "129" case EndOfMibView => "130"
  {
    Decimal.ShowSmall(TagSum(FirstTag(k)));
  }

  /** What `getTagByType` raises: no entry has the value's first tag, or
      the value has no tag at all so `tagSet[0]` fails. */
  datatype TypeError = UnknownType | Untagged

  /** `getTagByType`: the key of the first entry whose kind has the same
      first tag as the value (in class and number); no default when none
      does. */
  function GetTagByType(t: Table<Kind>, value: TagSet): (r: Result<string, TypeError>)
    ensures r.Success? <==> |value| > 0 && exists i :: 0 <= i < |t| && SameTag(FirstTag(t[i].kind), value[0])
    ensures r.Success? ==> exists i :: 0 <= i < |t| && t[i].key == r.value && SameTag(FirstTag(t[i].kind), value[0])
    ensures r == Failure(Untagged) <==> |value| == 0 && |t| > 0
    decreases |t|
  {
    if |t| == 0 then Failure(UnknownType)
    else if |value| == 0 then Failure(Untagged)
    else if SameTag(FirstTag(t[0].kind), value[0]) then Success(t[0].key)
    else
      var r := GetTagByType(t[1..], value);
      assert forall i :: 0 < i < |t| ==> t[i] == t[1..][i - 1];
      assert forall i :: 0 <= i < |t| - 1 ==> t[1..][i] == t[i + 1];
      r
  }

  /** The first entry with the value's first tag decides the key. */
  lemma {:induction false} GetTagFirst(t: Table<Kind>, value: TagSet, i: nat)
    requires i < |t| && |value| > 0 && SameTag(FirstTag(t[i].kind), value[0])
    requires forall j :: 0 <= j < i ==> !SameTag(FirstTag(t[j].kind), value[0])
    ensures GetTagByType(t, value) == Success(t[i].key)
    decreases i
  {
    if i > 0 {
      GetTagFirst(t[1..], value, i - 1);
    }
  }

  /** Kinds whose first tags compare equal are the same kind. */
  lemma FirstTagInjective(a: Kind, b: Kind)
    ensures SameTag(FirstTag(a), FirstTag(b)) ==> a == b
  {
    KindOfSumInverts(a);
    KindOfSumInverts(b);
  }

  /** In a table listing kinds with pairwise different keys, each kind's
      key leads back to the kind. */
  lemma EntriesLookup<V>(kinds: seq<V>, keyOf: V -> string, i: nat)
    requires i < |kinds|
    requires forall a, b :: 0 <= a < b < |kinds| ==> keyOf(kinds[a]) != keyOf(kinds[b])
    ensures Lookup(Entries(kinds, keyOf), keyOf(kinds[i])) == Some(kinds[i])
  {
    LookupFirst(Entries(kinds, keyOf), keyOf(kinds[i]), i);
  }

  /** In a table listing kinds with pairwise different first tags, the key
      found for a kind's tag set is the key its entry is filed under. */
  lemma EntriesGetTag(kinds: seq<Kind>, keyOf: Kind -> string, i: nat)
    requires i < |kinds|
    requires forall a, b :: 0 <= a < b < |kinds| ==> !SameTag(FirstTag(kinds[a]), FirstTag(kinds[b]))
    ensures GetTagByType(Entries(kinds, keyOf), TagSetOf(kinds[i])) == Success(keyOf(kinds[i]))
  {
    GetTagFirst(Entries(kinds, keyOf), TagSetOf(kinds[i]), i);
  }

  /** Kind and key determine each other through the table: the key found
      for a kind's tag set is the key its entry is filed under, and that key
      leads back to the kind. */
  lemma TagMapBijection(k: Kind)
    ensures GetTagByType(TagMap, TagSetOf(k)) == Success(KindKey(k))
    ensures Lookup(TagMap, KindKey(k)) == Some(k)
  {
    TagMapEntries();
    KindsDistinctKeys();
    forall a, b | 0 <= a < b < |Kinds|
      ensures !SameTag(FirstTag(Kinds[a]), FirstTag(Kinds[b]))
    {
      FirstTagInjective(Kinds[a], Kinds[b]);
      assert IndexOf(Kinds[a]) == a && IndexOf(Kinds[b]) == b;
    }
    EntriesGetTag(Kinds, KindKey, IndexOf(k));
    EntriesLookup(Kinds, KindKey, IndexOf(k));
  }

  /** A value whose first tag no listed kind has is refused with "unknown
      type". */
  lemma EntriesUnknown(kinds: seq<Kind>, keyOf: Kind -> string, value: TagSet)
    requires |value| > 0
    requires forall i :: 0 <= i < |kinds| ==> !SameTag(FirstTag(kinds[i]), value[0])
    ensures GetTagByType(Entries(kinds, keyOf), value) == Failure(UnknownType)
  {
    var t := Entries(kinds, keyOf);
    forall i | 0 <= i < |t|
      ensures !SameTag(FirstTag(t[i].kind), value[0])
    {
      assert t[i].kind == kinds[i];
    }
    GetTagUnknown(t, value);
  }

  /** A tagged value that no entry matches is refused with "unknown type". */
  lemma GetTagUnknown(t: Table<Kind>, value: TagSet)
    requires |value| > 0
    requires forall i :: 0 <= i < |t| ==> !SameTag(FirstTag(t[i].kind), value[0])
    ensures GetTagByType(t, value) == Failure(UnknownType)
  {
    var r := GetTagByType(t, value);
    assert !r.Success? && r != Failure(Untagged);
    assert r.error.UnknownType?;
  }

  /** Values whose first tags compare equal get the same answer. */
  lemma {:induction false} GetTagSameTag(t: Table<Kind>, v: TagSet, w: TagSet)
    requires |v| > 0 && |w| > 0 && SameTag(v[0], w[0])
    ensures GetTagByType(t, v) == GetTagByType(t, w)
    decreases |t|
  {
    if |t| > 0 {
      GetTagSameTag(t[1..], v, w);
    }
  }

  /** A value whose first tag belongs to none of the thirteen kinds is
      refused with "unknown type". */
  lemma {:induction false} UnknownTypeRefused(value: TagSet)
    requires |value| > 0
    requires forall k :: !SameTag(FirstTag(k), value[0])
    ensures GetTagByType(TagMap, value) == Failure(UnknownType)
  {
    TagMapEntries();
    EntriesUnknown(Kinds, KindKey, value);
  }

  /** For instance ASN.1 BOOLEAN (universal 1) has no key. */
  lemma BooleanHasNoKey()
    ensures GetTagByType(TagMap, [Tag(ClassUniversal, FormatSimple, 1)]) == Failure(UnknownType)
  {
    UnknownTypeRefused([Tag(ClassUniversal, FormatSimple, 1)]);
  }

  /** The format bit takes no part in the match: a value tagged with a
      kind's class and number finds that kind's key, whatever its format. */
  lemma {:induction false} FormatIgnored(k: Kind, format: nat)
    ensures GetTagByType(TagMap, [Tag(FirstTag(k).tagClass, format, FirstTag(k).tagId)]) == Success(KindKey(k))
  {
    TagMapBijection(k);
    GetTagSameTag(TagMap, TagSetOf(k), [Tag(FirstTag(k).tagClass, format, FirstTag(k).tagId)]);
  }
}
