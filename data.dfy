/** The deterministic data source (lib/data.ts): the record list the page renders and the
    single-record lookup the detail page uses. The current time read by `new Date()` is an
    input here: `now(i)` is the timestamp read while building element `i`. */
module Data {
  import opened Types

  /** The largest identifier the lookup accepts. */
  const MaxId := 50000

  function DigitChar(d: int): (c: char)
    requires 0 <= d < 10
    ensures '0' <= c <= '9' && c as int - '0' as int == d
  {
    ('0' as int + d) as char
  }

  /** The decimal numeral of `n`, as a template literal `${n}` writes it. */
  function NatToString(n: nat): (r: string)
    ensures |r| >= 1
    ensures forall i :: 0 <= i < |r| ==> '0' <= r[i] <= '9'
    ensures |r| > 1 ==> r[0] != '0'
    decreases n
  {
    if n < 10 then [DigitChar(n)] else NatToString(n / 10) + [DigitChar(n % 10)]
  }

  /** The value of a string of decimal digits, read most significant digit first. */
  function DecimalValue(s: string): (v: nat)
    requires forall i :: 0 <= i < |s| ==> '0' <= s[i] <= '9'
  {
    if |s| == 0 then 0
    else 10 * DecimalValue(s[..|s| - 1]) + (s[|s| - 1] as int - '0' as int)
  }

  /** Reading the numeral back gives the number: the numeral determines the number. */
  lemma {:induction false} DecimalRoundTrip(n: nat)
    ensures DecimalValue(NatToString(n)) == n
    decreases n
  {
    if n >= 10 {
      var r := NatToString(n);
      assert r[..|r| - 1] == NatToString(n / 10);
      DecimalRoundTrip(n / 10);
    }
  }

  lemma NatToStringInjective(m: nat, n: nat)
    ensures NatToString(m) == NatToString(n) ==> m == n
  {
    DecimalRoundTrip(m);
    DecimalRoundTrip(n);
  }

  /** `"Item " + n`, the name given to the record with identifier `n`. */
  function ItemName(n: nat): string
  {
    "Item " + NatToString(n)
  }

  lemma ItemNameInjective(m: nat, n: nat)
    ensures ItemName(m) == ItemName(n) ==> m == n
  {
    if ItemName(m) == ItemName(n) {
      assert NatToString(m) == ItemName(m)[5..];
      assert NatToString(n) == ItemName(n)[5..];
      NatToStringInjective(m, n);
    }
  }

  /** The record the generator builds at 0-based index `i`. */
  function GeneratedAt(i: nat, stamp: string): Item
  {
    Item(i + 1, ItemName(i + 1),
         if i % 2 == 0 then "Asset" else "Certificate",
         if i % 3 == 0 then Inactive else Active,
         stamp)
  }

  /** `generateItems(count)`: `Array.from({ length: count }, ...)`, where a negative length is
      clamped to zero. */
  function GenerateItems(count: int, now: nat -> string): (r: seq<Item>)
    ensures |r| == if count < 0 then 0 else count
    ensures forall i :: 0 <= i < |r| ==> r[i].id == i + 1
    ensures forall i :: 0 <= i < |r| ==> r[i].name == ItemName(i + 1)
    ensures forall i :: 0 <= i < |r| ==> r[i].lastUpdated == now(i)
    ensures forall i :: 0 <= i < |r| ==>
      (r[i].itemType == "Asset" <==> i % 2 == 0) && (r[i].itemType == "Certificate" <==> i % 2 == 1)
    ensures forall i :: 0 <= i < |r| ==>
      (r[i].status == Inactive <==> i % 3 == 0)
  {
    var n := if count < 0 then 0 else count;
    var r := seq(n, i requires 0 <= i < n => GeneratedAt(i, now(i)));
    assert forall i :: 0 <= i < n ==> r[i] == GeneratedAt(i, now(i));
    r
  }

  /** The generated identifiers are strictly ascending, hence unique, and the names are unique too. */
  lemma GeneratedIdsAscending(count: int, now: nat -> string, i: int, j: int)
    requires 0 <= i < j < |GenerateItems(count, now)|
    ensures GenerateItems(count, now)[i].id < GenerateItems(count, now)[j].id
    ensures GenerateItems(count, now)[i].name != GenerateItems(count, now)[j].name
  {
    ItemNameInjective(i + 1, j + 1);
  }

  /** `getItemById(id)`. The numeric identifier is modelled as an integer (the detail page
      rejects NaN before calling). */
  function GetItemById(id: int, stamp: string): (r: Option<Item>)
    ensures r.None? <==> id < 1 || id > MaxId
    ensures r.Some? ==> r.value.id == id && r.value.name == ItemName(id) && r.value.lastUpdated == stamp
    ensures r.Some? ==> (r.value.itemType == "Asset" <==> id % 2 == 0)
    ensures r.Some? ==> (r.value.itemType == "Certificate" <==> id % 2 == 1)
    ensures r.Some? ==> (r.value.status == Inactive <==> id % 3 == 0)
  {
    if id < 1 || id > MaxId then None
    else Some(Item(id, ItemName(id),
                   if id % 2 == 0 then "Asset" else "Certificate",
                   if id % 3 == 0 then Inactive else Active,
                   stamp))
  }

  /** The lookup as written and the list agree on a record's identifier and name, but never on its
      type, and on its status only when `k % 3 == 2`: the list tests the 0-based index, the lookup
      the identifier. */
  lemma LookupDisagreesWithList(count: int, now: nat -> string, k: int, stamp: string)
    requires 1 <= k <= count && k <= MaxId
    ensures GetItemById(k, stamp).Some?
    ensures GetItemById(k, stamp).value.id == GenerateItems(count, now)[k - 1].id
    ensures GetItemById(k, stamp).value.name == GenerateItems(count, now)[k - 1].name
    ensures GetItemById(k, stamp).value.itemType != GenerateItems(count, now)[k - 1].itemType
    ensures GetItemById(k, stamp).value.status == GenerateItems(count, now)[k - 1].status <==> k % 3 == 2
  {
    var listed := GenerateItems(count, now)[k - 1];
    var found := GetItemById(k, stamp).value;
    ResidueOfPredecessor(k);
    assert listed.itemType == "Asset" <==> k % 2 == 1;
    assert found.itemType == "Asset" <==> k % 2 == 0;
    assert listed.status == Inactive <==> k % 3 == 1;
    assert found.status == Inactive <==> k % 3 == 0;
  }

  lemma ResidueOfPredecessor(k: int)
    ensures (k - 1) % 2 == 0 <==> k % 2 == 1
    ensures (k - 1) % 3 == 0 <==> k % 3 == 1
  {
  }

  /** The first record: the list says Asset/Inactive, the lookup Certificate/Active. */
  lemma FirstRecordDisagrees(now: nat -> string, stamp: string)
    ensures GenerateItems(50000, now)[0].itemType == "Asset"
    ensures GenerateItems(50000, now)[0].status == Inactive
    ensures GetItemById(1, stamp) == Some(Item(1, ItemName(1), "Certificate", Active, stamp))
  {
  }

  /** The lookup with the list's rule: the record at index `id - 1`. */
  function GetItemByIdCorrected(id: int, stamp: string): (r: Option<Item>)
    ensures r.None? <==> id < 1 || id > MaxId
    ensures r.Some? ==> r.value.id == id && r.value.name == ItemName(id) && r.value.lastUpdated == stamp
  {
    if id < 1 || id > MaxId then None else Some(GeneratedAt(id - 1, stamp))
  }

  /** The corrected lookup returns exactly the record the list holds at that identifier. */
  lemma CorrectedLookupAgreesWithList(count: int, now: nat -> string, k: int)
    requires 1 <= k <= count && k <= MaxId
    ensures GetItemByIdCorrected(k, now(k - 1)) == Some(GenerateItems(count, now)[k - 1])
  {
  }
}
