/** The row-lookup helpers of dnlib's MetaData base class: the range of rows that share a key
    in a table sorted on that key, the inverse "owner" tables built from the parent tables' row
    lists, and the nested-class index. A table is seen through one key column: `keys[rid - 1]`
    is the key of row `rid`. */
module Metadata {
  import opened Wrappers
  import opened Dictionary

  const UINT32_LIMIT: int := 0x1_0000_0000

  /** A ContiguousRidList: `length` row ids starting at `start`. */
  datatype RidRange = RidRange(start: nat, length: nat)

  /** ContiguousRidList.Empty. */
  const EMPTY: RidRange := RidRange(0, 0)

  /** MDTable.IsInvalidRID: 0, or past the last row. */
  predicate IsInvalidRid(rows: nat, rid: nat)
  {
    rid == 0 || rid > rows
  }

  /** The range around `hit` is the maximal run of rows with key `key`: every row in it other
      than the binary-search hit has that key, and the rows just outside it (if any) do not. */
  predicate IsMaximalRun(keys: seq<int>, key: int, hit: nat, r: RidRange)
  {
    1 <= r.start <= hit < r.start + r.length <= |keys| + 1
    && (forall i :: r.start - 1 <= i < r.start + r.length - 1 && i != hit - 1 ==> keys[i] == key)
    && (r.start == 1 || keys[r.start - 2] != key)
    && (r.start + r.length == |keys| + 1 || keys[r.start + r.length - 1] != key)
  }

  /** FindAllRows: `hit` is what the (abstract) binary search returned. An absent table or an
      invalid hit gives the empty list; otherwise the hit is widened downwards and upwards while
      the neighbouring rows have the same key. */
  method FindAllRows(table: Option<seq<int>>, key: int, hit: nat) returns (r: RidRange)
    ensures table.None? || IsInvalidRid(|table.value|, hit) ==> r == EMPTY
    ensures table.Some? && !IsInvalidRid(|table.value|, hit) ==> IsMaximalRun(table.value, key, hit, r)
  {
    if table.None? || IsInvalidRid(|table.value|, hit) {
      return EMPTY;
    }
    var keys := table.value;
    var startRid := hit;
    var endRid := hit + 1;
    while startRid > 1
      invariant 1 <= startRid <= hit
      invariant forall i :: startRid - 1 <= i < hit - 1 ==> keys[i] == key
    {
      if key != keys[startRid - 2] {
        break;
      }
      startRid := startRid - 1;
    }
    while endRid <= |keys|
      invariant hit + 1 <= endRid <= |keys| + 1
      invariant forall i :: hit <= i < endRid - 1 ==> keys[i] == key
    {
      if key != keys[endRid - 1] {
        break;
      }
      endRid := endRid + 1;
    }
    r := RidRange(startRid, endRid - startRid);
  }

  /** Rows a+1..b (0-based indexes a..b-1) all have key `key`. */
  predicate AllKey(keys: seq<int>, key: int, a: int, b: int)
  {
    forall i :: a <= i < b && 0 <= i < |keys| ==> keys[i] == key
  }

  /** When the binary search hits a row with the key, the range is the largest block of
      consecutive rows around the hit that all have the key. */
  lemma RunIsLargestBlock(keys: seq<int>, key: int, hit: nat, r: RidRange)
    requires IsMaximalRun(keys, key, hit, r) && keys[hit - 1] == key
    ensures AllKey(keys, key, r.start - 1, r.start + r.length - 1)
    ensures forall a, b :: 0 <= a <= hit - 1 < b <= |keys| && AllKey(keys, key, a, b) ==>
      r.start - 1 <= a && b <= r.start + r.length - 1
  {
    forall a, b | 0 <= a <= hit - 1 < b <= |keys| && AllKey(keys, key, a, b)
      ensures r.start - 1 <= a && b <= r.start + r.length - 1
    {
      if r.start > 1 {
        assert keys[r.start - 2] != key;
      }
      if r.start + r.length <= |keys| {
        assert keys[r.start + r.length - 1] != key;
      }
    }
  }

  /** The single-row lookups (GetClassLayoutRid and its siblings): 0 when the owner row id is
      invalid in its own table, otherwise the first row id of the found range, or 0 when the
      range is empty. `key` is the owner row id or its coded token. */
  method GetSingleRowRid(ownerRows: Option<nat>, ownerRid: nat, table: Option<seq<int>>, key: int, hit: nat)
    returns (r: nat)
    ensures ownerRows.None? || IsInvalidRid(ownerRows.value, ownerRid) ==> r == 0
    ensures table.None? || IsInvalidRid(|table.value|, hit) ==> r == 0
    ensures ownerRows.Some? && !IsInvalidRid(ownerRows.value, ownerRid) && table.Some? && !IsInvalidRid(|table.value|, hit) ==>
      1 <= r <= hit && (r == 1 || table.value[r - 2] != key) && (forall i :: r - 1 <= i < hit - 1 ==> table.value[i] == key)
  {
    if ownerRows.None? || IsInvalidRid(ownerRows.value, ownerRid) {
      return 0;
    }
    var list := FindAllRows(table, key, hit);
    r := if list.length == 0 then 0 else list.start;
  }

  // ---------------------------------------------------------------------------------------
  // Inverse owner tables

  /** Row ids 1..n in order: GetTypeDefRidList, and the method rows the param owners visit. */
  function Rids(n: nat): (r: seq<nat>)
    ensures |r| == n && forall i :: 0 <= i < n ==> r[i] == i + 1
  {
    seq(n, i => i + 1)
  }

  /** Every row id in the list lies in a table of `rows` rows. */
  predicate ChildrenIn(children: seq<nat>, rows: nat)
  {
    forall j :: 0 <= j < |children| ==> 1 <= children[j] <= rows
  }

  /** Every child row id an owner lists lies in the child table. */
  predicate ListsInRange(rows: nat, owners: seq<nat>, listOf: nat -> seq<nat>)
  {
    forall i :: 0 <= i < |owners| ==> ChildrenIn(listOf(owners[i]), rows)
  }

  /** One owner claims the child rows it lists, in list order; a row that already has a nonzero
      owner is skipped. */
  function Claim(inv: seq<nat>, owner: nat, children: seq<nat>): (r: seq<nat>)
    requires ChildrenIn(children, |inv|)
    ensures |r| == |inv|
  {
    if |children| == 0 then inv
    else
      var prev := Claim(inv, owner, children[..|children| - 1]);
      var index := children[|children| - 1] - 1;
      if prev[index] != 0 then prev else prev[index := owner]
  }

  /** The inverse table after visiting `owners` in order, starting from an all-zero array. */
  function Inverse(rows: nat, owners: seq<nat>, listOf: nat -> seq<nat>): (r: seq<nat>)
    requires ListsInRange(rows, owners, listOf)
    ensures |r| == rows
  {
    if |owners| == 0 then seq(rows, _ => 0)
    else
      var last := owners[|owners| - 1];
      Claim(Inverse(rows, owners[..|owners| - 1], listOf), last, listOf(last))
  }

  /** The reference: the first nonzero owner, in visiting order, whose list holds `rid`; 0 if
      there is none. */
  function FirstOwner(owners: seq<nat>, listOf: nat -> seq<nat>, rid: nat): nat
  {
    if |owners| == 0 then 0
    else if owners[0] != 0 && rid in listOf(owners[0]) then owners[0]
    else FirstOwner(owners[1..], listOf, rid)
  }

  /** Claiming leaves a nonzero entry alone and gives a zero entry to the owner iff listed. */
  lemma {:induction false} ClaimAt(inv: seq<nat>, owner: nat, children: seq<nat>, index: nat)
    requires ChildrenIn(children, |inv|)
    requires index < |inv|
    ensures Claim(inv, owner, children)[index] == if inv[index] == 0 && index + 1 in children then owner else inv[index]
  {
    if |children| != 0 {
      var pre := children[..|children| - 1];
      ClaimAt(inv, owner, pre, index);
      assert index + 1 in children <==> index + 1 in pre || index + 1 == children[|children| - 1];
    }
  }

  lemma {:induction false} FirstOwnerSnoc(owners: seq<nat>, x: nat, listOf: nat -> seq<nat>, rid: nat)
    ensures FirstOwner(owners + [x], listOf, rid) ==
      if FirstOwner(owners, listOf, rid) != 0 then FirstOwner(owners, listOf, rid)
      else if x != 0 && rid in listOf(x) then x else 0
  {
    if |owners| != 0 {
      assert (owners + [x])[1..] == owners[1..] + [x];
      FirstOwnerSnoc(owners[1..], x, listOf, rid);
    }
  }

  /** The filled table holds, for every child row, its first owner in visiting order. */
  lemma {:induction false} InverseAt(rows: nat, owners: seq<nat>, listOf: nat -> seq<nat>, index: nat)
    requires ListsInRange(rows, owners, listOf) && index < rows
    ensures Inverse(rows, owners, listOf)[index] == FirstOwner(owners, listOf, index + 1)
  {
    if |owners| != 0 {
      var pre := owners[..|owners| - 1];
      var last := owners[|owners| - 1];
      assert ListsInRange(rows, pre, listOf);
      InverseAt(rows, pre, listOf, index);
      ClaimAt(Inverse(rows, pre, listOf), last, listOf(last), index);
      assert pre + [last] == owners;
      FirstOwnerSnoc(pre, last, listOf, index + 1);
    }
  }

  /** First owner wins: once a prefix of the owners has given a row a nonzero owner, the later
      owners never change it. */
  lemma {:induction false} FirstOwnerKept(owners: seq<nat>, k: nat, listOf: nat -> seq<nat>, rid: nat)
    requires k <= |owners| && FirstOwner(owners[..k], listOf, rid) != 0
    ensures FirstOwner(owners, listOf, rid) == FirstOwner(owners[..k], listOf, rid)
  {
    assert owners[..k][0] == owners[0];
    if !(owners[0] != 0 && rid in listOf(owners[0])) {
      assert owners[..k][1..] == owners[1..][..k - 1];
      FirstOwnerKept(owners[1..], k - 1, listOf, rid);
    }
  }

  /** No owner is invented: a nonzero first owner is one of the owners and lists the row. */
  lemma {:induction false} FirstOwnerListed(owners: seq<nat>, listOf: nat -> seq<nat>, rid: nat)
    requires FirstOwner(owners, listOf, rid) != 0
    ensures FirstOwner(owners, listOf, rid) in owners && rid in listOf(FirstOwner(owners, listOf, rid))
  {
    if !(owners[0] != 0 && rid in listOf(owners[0])) {
      FirstOwnerListed(owners[1..], listOf, rid);
    }
  }

  /** A row is left without an owner iff no nonzero owner lists it. */
  lemma {:induction false} FirstOwnerNone(owners: seq<nat>, listOf: nat -> seq<nat>, rid: nat)
    ensures FirstOwner(owners, listOf, rid) == 0 <==> forall i :: 0 <= i < |owners| && rid in listOf(owners[i]) ==> owners[i] == 0
  {
    if |owners| != 0 {
      FirstOwnerNone(owners[1..], listOf, rid);
      assert forall i :: 1 <= i < |owners| ==> owners[i] == owners[1..][i - 1];
    }
  }

  predicate StrictlyIncreasing(s: seq<nat>)
  {
    forall i, j :: 0 <= i < j < |s| ==> s[i] < s[j]
  }

  /** With owners visited in ascending order, the first owner is the smallest nonzero owner that
      lists the row (the generic-parameter owners, and the method rows of the param owners). */
  lemma {:induction false} SmallestOwnerWins(owners: seq<nat>, listOf: nat -> seq<nat>, rid: nat)
    requires StrictlyIncreasing(owners) && FirstOwner(owners, listOf, rid) != 0
    ensures forall i :: 0 <= i < |owners| && owners[i] != 0 && rid in listOf(owners[i]) ==> FirstOwner(owners, listOf, rid) <= owners[i]
  {
    if !(owners[0] != 0 && rid in listOf(owners[0])) {
      SmallestOwnerWins(owners[1..], listOf, rid);
      assert forall i :: 1 <= i < |owners| ==> owners[i] == owners[1..][i - 1];
    }
  }

  /** The owner-table lookup (GetOwnerTypeOfField and its siblings): the uint `rid - 1` indexes
      the table, so row id 0 wraps to 0xFFFFFFFF; an index past the table gives 0. */
  function OwnerAt(inv: seq<nat>, rid: nat): (r: nat)
    requires rid < UINT32_LIMIT && |inv| < UINT32_LIMIT
    ensures rid == 0 || rid > |inv| ==> r == 0
    ensures 1 <= rid <= |inv| ==> r == inv[rid - 1]
  {
    var index := (rid + 0xFFFF_FFFF) % UINT32_LIMIT;
    if index >= |inv| then 0 else inv[index]
  }

  /** The inner loop of InitializeInverse*OwnerRidList: the owner claims its child rows. */
  method ClaimRows(a: array<nat>, owner: nat, children: seq<nat>)
    requires ChildrenIn(children, a.Length)
    modifies a
    ensures a[..] == Claim(old(a[..]), owner, children)
  {
    var j := 0;
    while j < |children|
      invariant 0 <= j <= |children|
      invariant a[..] == Claim(old(a[..]), owner, children[..j])
    {
      assert children[..j + 1][..j] == children[..j];
      var ridIndex := children[j] - 1;
      if a[ridIndex] == 0 {
        a[ridIndex] := owner;
      }
      j := j + 1;
    }
    assert children[..j] == children;
  }

  /** One lazily built `uint[]` inverse owner table of MetaData (fieldRidToTypeDefRid and its
      siblings): the child table's row count, the owners in the order they are visited, and
      the child row list of each owner. */
  class InverseOwnerList {
    const rows: nat
    const owners: seq<nat>
    const listOf: nat -> seq<nat>
    var ridToOwner: array?<nat>

    ghost predicate Valid()
      reads this, ridToOwner
    {
      rows < UINT32_LIMIT && ListsInRange(rows, owners, listOf)
      && (ridToOwner != null ==> ridToOwner[..] == Inverse(rows, owners, listOf))
    }

    constructor(rows: nat, owners: seq<nat>, listOf: nat -> seq<nat>)
      requires rows < UINT32_LIMIT && ListsInRange(rows, owners, listOf)
      ensures Valid() && ridToOwner == null
      ensures this.rows == rows && this.owners == owners && this.listOf == listOf
    {
      this.rows := rows;
      this.owners := owners;
      this.listOf := listOf;
      ridToOwner := null;
    }

    /** InitializeInverse*OwnerRidList: does nothing once built; otherwise allocates a zeroed
        array and lets every owner, in order, claim its child rows. */
    method Initialize()
      requires Valid()
      modifies this
      ensures Valid() && ridToOwner != null
      ensures old(ridToOwner) != null ==> ridToOwner == old(ridToOwner)
      ensures old(ridToOwner) == null ==> fresh(ridToOwner)
    {
      if ridToOwner != null {
        return;
      }
      var a := new nat[rows](_ => 0);
      assert a[..] == Inverse(rows, owners[..0], listOf);
      var i := 0;
      while i < |owners|
        invariant 0 <= i <= |owners| && a.Length == rows && fresh(a)
        invariant ListsInRange(rows, owners[..i], listOf)
        invariant a[..] == Inverse(rows, owners[..i], listOf)
      {
        assert owners[..i + 1][..i] == owners[..i];
        assert ListsInRange(rows, owners[..i + 1], listOf);
        ClaimRows(a, owners[i], listOf(owners[i]));
        i := i + 1;
      }
      assert owners[..i] == owners;
      ridToOwner := a;
    }

    /** GetOwnerTypeOf* / GetOwnerOf*: builds the table on first use, then reads the entry. */
    method GetOwner(rid: nat) returns (r: nat)
      requires Valid() && rid < UINT32_LIMIT
      modifies this
      ensures Valid() && ridToOwner != null
      ensures r == OwnerAt(Inverse(rows, owners, listOf), rid)
    {
      if ridToOwner == null {
        Initialize();
      }
      var index := (rid + 0xFFFF_FFFF) % UINT32_LIMIT;
      if index >= ridToOwner.Length {
        return 0;
      }
      r := ridToOwner[index];
    }
  }

  /** The entry of an owner table is the first owner, in visiting order, that lists the row. */
  lemma OwnerIsFirstOwner(rows: nat, owners: seq<nat>, listOf: nat -> seq<nat>, rid: nat)
    requires rows < UINT32_LIMIT && ListsInRange(rows, owners, listOf) && rid < UINT32_LIMIT
    ensures OwnerAt(Inverse(rows, owners, listOf), rid) == if 1 <= rid <= rows then FirstOwner(owners, listOf, rid) else 0
  {
    if 1 <= rid <= rows {
      InverseAt(rows, owners, listOf, rid - 1);
    }
  }

  /** The sorted set of a column's values, as the Dictionary<uint, bool> of owners followed by
      List.Sort yields it. */
  function Insert(s: seq<nat>, x: nat): (r: seq<nat>)
    requires StrictlyIncreasing(s)
    ensures StrictlyIncreasing(r) && forall y :: y in r <==> y in s || y == x
  {
    if |s| == 0 then [x]
    else if x < s[0] then ConsIncreasing(x, s); [x] + s
    else if x == s[0] then s
    else
      var t := Insert(s[1..], x);
      assert forall y :: y in s[1..] ==> s[0] < y;
      ConsIncreasing(s[0], t);
      [s[0]] + t
  }

  lemma ConsIncreasing(x: nat, s: seq<nat>)
    requires StrictlyIncreasing(s) && (|s| == 0 || x < s[0])
    ensures StrictlyIncreasing([x] + s)
  {
  }

  lemma SnocIncreasing(s: seq<nat>, x: nat)
    requires StrictlyIncreasing(s) && forall y :: y in s ==> y < x
    ensures StrictlyIncreasing(s + [x])
  {
    assert forall i :: 0 <= i < |s| ==> s[i] in s;
  }

  /** The owner list of InitializeInverseGenericParam(Constraint)OwnerRidList: every value of
      the owner column once, ascending. */
  method SortedOwners(ownerColumn: seq<nat>) returns (owners: seq<nat>)
    ensures StrictlyIncreasing(owners)
    ensures forall x :: x in owners <==> x in ownerColumn
  {
    owners := [];
    var rid := 1;
    while rid <= |ownerColumn|
      invariant 1 <= rid <= |ownerColumn| + 1
      invariant StrictlyIncreasing(owners)
      invariant forall x :: x in owners <==> x in ownerColumn[..rid - 1]
    {
      assert ownerColumn[..rid] == ownerColumn[..rid - 1] + [ownerColumn[rid - 1]];
      owners := Insert(owners, ownerColumn[rid - 1]);
      rid := rid + 1;
    }
    assert ownerColumn[..rid - 1] == ownerColumn;
  }

  // ---------------------------------------------------------------------------------------
  // InitializeNestedClassesDictionary

  /** A NestedClass row: the nested TypeDef row id and its enclosing TypeDef row id. */
  datatype NestedClassRow = NestedClassRow(nestedClass: nat, enclosingClass: nat)

  predicate IsValidRid(rows: nat, rid: nat)
  {
    1 <= rid <= rows
  }

  /** validTypeDefRids: only built when GetTypeDefRidList does not cover the whole TypeDef
      table; None stands for the null dictionary. */
  function ValidTypeDefRids(typeDefRows: nat, typeDefRidList: seq<nat>): Option<set<nat>>
  {
    if |typeDefRidList| != typeDefRows then Some(set x | x in typeDefRidList) else None
  }

  /** Whether NestedClass row `rid` is taken into account. The NestedClass row id itself is
      what is looked up in validTypeDefRids. */
  predicate Considered(typeDefRows: nat, valid: Option<set<nat>>, rid: nat, row: NestedClassRow)
  {
    (valid.None? || rid in valid.value)
    && IsValidRid(typeDefRows, row.nestedClass) && IsValidRid(typeDefRows, row.enclosingClass)
  }

  /** The nestedRids list after visiting the first |rows| NestedClass rows. */
  function NestedRids(typeDefRows: nat, valid: Option<set<nat>>, rows: seq<NestedClassRow>): seq<nat>
  {
    if |rows| == 0 then []
    else
      var prev := NestedRids(typeDefRows, valid, rows[..|rows| - 1]);
      var row := rows[|rows| - 1];
      if Considered(typeDefRows, valid, |rows|, row) && row.nestedClass !in prev then prev + [row.nestedClass]
      else prev
  }

  predicate Distinct(s: seq<nat>)
  {
    forall i, j :: 0 <= i < j < |s| ==> s[i] != s[j]
  }

  /** Each nested row id is recorded once, and exactly the nested ids of considered rows are. */
  lemma {:induction false} NestedRidsShape(typeDefRows: nat, valid: Option<set<nat>>, rows: seq<NestedClassRow>)
    ensures Distinct(NestedRids(typeDefRows, valid, rows))
    ensures forall x :: x in NestedRids(typeDefRows, valid, rows) <==>
      exists i :: 0 <= i < |rows| && Considered(typeDefRows, valid, i + 1, rows[i]) && rows[i].nestedClass == x
  {
    if |rows| != 0 {
      var pre := rows[..|rows| - 1];
      NestedRidsShape(typeDefRows, valid, pre);
      assert forall i :: 0 <= i < |pre| ==> pre[i] == rows[i];
    }
  }

  /** The first loop of InitializeNestedClassesDictionary: the nested row ids, in the order of
      the first row that names each of them. */
  method CollectNestedRids(typeDefRows: nat, valid: Option<set<nat>>, rows: seq<NestedClassRow>)
    returns (nestedRids: seq<nat>)
    ensures nestedRids == NestedRids(typeDefRows, valid, rows)
  {
    var nestedRidsDict: set<nat> := {};
    nestedRids := [];
    var rid := 1;
    while rid <= |rows|
      invariant 1 <= rid <= |rows| + 1
      invariant nestedRids == NestedRids(typeDefRows, valid, rows[..rid - 1])
      invariant forall x :: x in nestedRidsDict <==> x in nestedRids
    {
      assert rows[..rid][..rid - 1] == rows[..rid - 1];
      var row := rows[rid - 1];
      if Considered(typeDefRows, valid, rid, row) && row.nestedClass !in nestedRidsDict {
        nestedRidsDict := nestedRidsDict + {row.nestedClass};
        nestedRids := nestedRids + [row.nestedClass];
      }
      rid := rid + 1;
    }
    assert rows[..rid - 1] == rows;
  }

  /** The row ReadNestedClassRow returns for a NestedClass row id: None (null) for an invalid id. */
  function RowAt(rows: seq<NestedClassRow>, rid: nat): Option<NestedClassRow>
  {
    if 1 <= rid <= |rows| then Some(rows[rid - 1]) else None
  }

  /** The nested ids whose looked-up row names `enclosing`, in nestedRids order. `lookup` is
      GetNestedClassRid, which depends on the abstract binary search. */
  function NestedIn(nestedRids: seq<nat>, rows: seq<NestedClassRow>, lookup: nat -> nat, enclosing: nat): (r: seq<nat>)
    ensures forall x :: x in r ==> x in nestedRids
  {
    if |nestedRids| == 0 then []
    else
      var last := nestedRids[|nestedRids| - 1];
      var row := RowAt(rows, lookup(last));
      NestedIn(nestedRids[..|nestedRids| - 1], rows, lookup, enclosing)
        + (if row.Some? && row.value.enclosingClass == enclosing then [last] else [])
  }

  lemma NestedInSnoc(ns: seq<nat>, x: nat, rows: seq<NestedClassRow>, lookup: nat -> nat, enclosing: nat)
    ensures RowAt(rows, lookup(x)).Some? && RowAt(rows, lookup(x)).value.enclosingClass == enclosing ==>
      NestedIn(ns + [x], rows, lookup, enclosing) == NestedIn(ns, rows, lookup, enclosing) + [x]
    ensures !(RowAt(rows, lookup(x)).Some? && RowAt(rows, lookup(x)).value.enclosingClass == enclosing) ==>
      NestedIn(ns + [x], rows, lookup, enclosing) == NestedIn(ns, rows, lookup, enclosing)
  {
    assert (ns + [x])[..|ns|] == ns;
    assert NestedIn(ns, rows, lookup, enclosing) + [] == NestedIn(ns, rows, lookup, enclosing);
  }

  /** The entry of typeDefRidToNestedClasses for `enclosing`: absent when no nested id maps to it. */
  function Entry(nestedRids: seq<nat>, rows: seq<NestedClassRow>, lookup: nat -> nat, enclosing: nat): Option<seq<nat>>
  {
    var l := NestedIn(nestedRids, rows, lookup, enclosing);
    if |l| == 0 then None else Some(l)
  }

  lemma GroupStep(d: Dict<nat, seq<nat>>, ns: seq<nat>, x: nat, rows: seq<NestedClassRow>, lookup: nat -> nat, e: nat, list: seq<nat>)
    requires forall e' :: Lookup(d, e') == Entry(ns, rows, lookup, e')
    requires RowAt(rows, lookup(x)).Some? && RowAt(rows, lookup(x)).value.enclosingClass == e
    requires list == if Lookup(d, e).Some? then Lookup(d, e).value else []
    ensures forall e' :: Lookup(Put(d, e, list + [x]), e') == Entry(ns + [x], rows, lookup, e')
  {
    forall e' ensures Lookup(Put(d, e, list + [x]), e') == Entry(ns + [x], rows, lookup, e') {
      PutLookup(d, e, list + [x], e');
      NestedInSnoc(ns, x, rows, lookup, e');
    }
  }

  lemma GroupSkip(ns: seq<nat>, x: nat, rows: seq<NestedClassRow>, lookup: nat -> nat)
    requires RowAt(rows, lookup(x)).None?
    ensures forall e' :: Entry(ns + [x], rows, lookup, e') == Entry(ns, rows, lookup, e')
  {
    forall e' ensures Entry(ns + [x], rows, lookup, e') == Entry(ns, rows, lookup, e') {
      NestedInSnoc(ns, x, rows, lookup, e');
    }
  }

  /** The second loop: typeDefRidToNestedClasses, each enclosing row id mapped to the nested ids
      that name it, in nestedRids order. */
  method GroupByEnclosing(nestedRids: seq<nat>, rows: seq<NestedClassRow>, lookup: nat -> nat)
    returns (d: Dict<nat, seq<nat>>)
    ensures forall e :: Lookup(d, e) == Entry(nestedRids, rows, lookup, e)
  {
    d := [];
    var i := 0;
    while i < |nestedRids|
      invariant 0 <= i <= |nestedRids|
      invariant forall e :: Lookup(d, e) == Entry(nestedRids[..i], rows, lookup, e)
    {
      var nestedRid := nestedRids[i];
      assert nestedRids[..i + 1] == nestedRids[..i] + [nestedRid];
      var row := RowAt(rows, lookup(nestedRid));
      if row.Some? {
        var e := row.value.enclosingClass;
        var ridList := Lookup(d, e);
        var list := if ridList.Some? then ridList.value else [];
        GroupStep(d, nestedRids[..i], nestedRid, rows, lookup, e, list);
        d := Put(d, e, list + [nestedRid]);
      } else {
        GroupSkip(nestedRids[..i], nestedRid, rows, lookup);
      }
      i := i + 1;
    }
    assert nestedRids[..i] == nestedRids;
  }

  /** The third loop: nonNestedTypes, the valid TypeDef row ids that are not nested. */
  method NonNestedTypes(typeDefRows: nat, valid: Option<set<nat>>, nestedRids: seq<nat>) returns (r: seq<nat>)
    ensures StrictlyIncreasing(r)
    ensures forall x :: x in r <==> IsValidRid(typeDefRows, x) && (valid.None? || x in valid.value) && x !in nestedRids
  {
    r := [];
    var rid := 1;
    while rid <= typeDefRows
      invariant 1 <= rid <= typeDefRows + 1
      invariant StrictlyIncreasing(r) && forall x :: x in r ==> x < rid
      invariant forall x :: x in r <==> 1 <= x < rid && (valid.None? || x in valid.value) && x !in nestedRids
    {
      if (valid.None? || rid in valid.value) && rid !in nestedRids {
        SnocIncreasing(r, rid);
        r := r + [rid];
      }
      rid := rid + 1;
    }
  }

  /** InitializeNestedClassesDictionary: the enclosing-class index and the non-nested types. */
  method InitializeNestedClassesDictionary(typeDefRows: nat, typeDefRidList: seq<nat>, rows: seq<NestedClassRow>, lookup: nat -> nat)
    returns (typeDefRidToNestedClasses: Dict<nat, seq<nat>>, nonNestedTypes: seq<nat>)
    ensures var nested := NestedRids(typeDefRows, ValidTypeDefRids(typeDefRows, typeDefRidList), rows);
      forall e :: Lookup(typeDefRidToNestedClasses, e) == Entry(nested, rows, lookup, e)
    ensures var valid := ValidTypeDefRids(typeDefRows, typeDefRidList);
      StrictlyIncreasing(nonNestedTypes)
      && forall x :: x in nonNestedTypes <==> IsValidRid(typeDefRows, x) && (valid.None? || x in valid.value) && x !in NestedRids(typeDefRows, valid, rows)
  {
    var valid := ValidTypeDefRids(typeDefRows, typeDefRidList);
    var nestedRids := CollectNestedRids(typeDefRows, valid, rows);
    typeDefRidToNestedClasses := GroupByEnclosing(nestedRids, rows, lookup);
    nonNestedTypes := NonNestedTypes(typeDefRows, valid, nestedRids);
  }
}
