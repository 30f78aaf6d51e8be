/** Dialect identities and the sorted, duplicate-free set that holds them. */
module Dialects {
  import opened Orders
  import opened Unicode

  /** An id is compared by its content: the UTF-8 bytes of its name. */
  type DialectId = Bytes

  predicate IsLower(b: Byte) { 'a' as int <= b <= 'z' as int }

  predicate IsIdByte(b: Byte) { IsLower(b) || '0' as int <= b <= '9' as int || b == '_' as int }

  /** The published id rule, `[a-z][a-z0-9_]*`. */
  predicate WellFormed(id: DialectId) {
    && id != [] && 'a' as int <= id[0] <= 'z' as int
    && forall i | 1 <= i < |id| ::
         'a' as int <= id[i] <= 'z' as int || '0' as int <= id[i] <= '9' as int || id[i] == '_' as int
  }

  method IsWellFormed(id: DialectId) returns (ok: bool)
    ensures ok <==> WellFormed(id)
  {
    if |id| == 0 { return false; }
    if !IsLower(id[0]) { return false; }
    var i := 1;
    while i < |id|
      invariant 1 <= i <= |id|
      invariant forall j | 1 <= j < i :: IsIdByte(id[j])
    {
      if !IsIdByte(id[i]) { return false; }
      i := i + 1;
    }
    return true;
  }

  // ---- DialectSet --------------------------------------------------------------

  predicate IdLess(a: DialectId, b: DialectId) { Compare(a, b).Less? }

  lemma IdOrderIsStrictTotal(a: DialectId, b: DialectId, c: DialectId)
    ensures !IdLess(a, a)
    ensures IdLess(a, b) || a == b || IdLess(b, a)
    ensures IdLess(a, b) && IdLess(b, c) ==> IdLess(a, c)
  {
    CompareEqual(a, a);
    CompareEqual(a, b);
    CompareReverse(a, b);
    if IdLess(a, b) && IdLess(b, c) { CompareTransitive(a, b, c); }
  }

  /** Ascending, neighbours possibly equal: what the sort leaves. */
  predicate Sorted(s: seq<DialectId>) {
    forall i, j | 0 <= i < j < |s| :: !IdLess(s[j], s[i])
  }

  predicate StrictlySorted(s: seq<DialectId>) {
    forall i, j | 0 <= i < j < |s| :: IdLess(s[i], s[j])
  }

  predicate SameMembers(s: seq<DialectId>, t: seq<DialectId>) {
    (forall id | id in s :: id in t) && (forall id | id in t :: id in s)
  }

  /** The representation `from_ids` promises for the set of ids in a list. */
  predicate Represents(members: seq<DialectId>, ids: seq<DialectId>) {
    StrictlySorted(members) && SameMembers(members, ids)
  }

  method InsertId(s: seq<DialectId>, id: DialectId) returns (r: seq<DialectId>)
    requires Sorted(s)
    ensures Sorted(r) && SameMembers(r, [id] + s)
  {
    var i := 0;
    while i < |s| && !IdLess(id, s[i])
      invariant 0 <= i <= |s|
      invariant forall j | 0 <= j < i :: !IdLess(id, s[j])
    {
      i := i + 1;
    }
    forall j | i <= j < |s| ensures !IdLess(s[j], id) {
      IdOrderIsStrictTotal(id, s[i], s[j]);
      IdOrderIsStrictTotal(s[i], s[j], s[i]);
      IdOrderIsStrictTotal(s[j], id, s[i]);
      IdOrderIsStrictTotal(s[i], id, s[i]);
    }
    r := s[..i] + [id] + s[i..];
    assert s == s[..i] + s[i..];
  }

  method SortUnstable(ids: seq<DialectId>) returns (s: seq<DialectId>)
    ensures Sorted(s) && SameMembers(s, ids)
  {
    s := [];
    var i := 0;
    while i < |ids|
      invariant 0 <= i <= |ids|
      invariant Sorted(s) && SameMembers(s, ids[..i])
    {
      s := InsertId(s, ids[i]);
      assert ids[..i + 1] == ids[..i] + [ids[i]];
      i := i + 1;
    }
    assert ids[..|ids|] == ids;
  }

  /** Drop every element equal to the one kept before it. */
  method Dedup(s: seq<DialectId>) returns (r: seq<DialectId>)
    requires Sorted(s)
    ensures Represents(r, s)
  {
    r := [];
    var i := 0;
    while i < |s|
      invariant 0 <= i <= |s|
      invariant Represents(r, s[..i])
      invariant if i == 0 then r == [] else r != [] && r[|r| - 1] == s[i - 1]
    {
      assert s[..i + 1] == s[..i] + [s[i]];
      if r == [] || r[|r| - 1] != s[i] {
        if r != [] { LargerThanLast(r, s[i], s, i); }
        r := r + [s[i]];
      }
      i := i + 1;
    }
    assert s[..|s|] == s;
  }

  lemma LargerThanLast(r: seq<DialectId>, id: DialectId, s: seq<DialectId>, i: nat)
    requires Sorted(s) && StrictlySorted(r) && r != [] && 0 < i < |s|
    requires r[|r| - 1] == s[i - 1] && s[i] == id && r[|r| - 1] != id
    ensures forall j | 0 <= j < |r| :: IdLess(r[j], id)
  {
    var last := r[|r| - 1];
    IdOrderIsStrictTotal(last, id, last);
    forall j | 0 <= j < |r| ensures IdLess(r[j], id) {
      IdOrderIsStrictTotal(r[j], last, id);
    }
  }

  method FromIds(ids: seq<DialectId>) returns (members: seq<DialectId>)
    ensures Represents(members, ids)
  {
    members := SortUnstable(ids);
    ghost var sorted := members;
    members := Dedup(members);
    assert forall id | id in members :: id in sorted && id in ids;
    assert forall id | id in ids :: id in sorted && id in members;
  }

  /** Equality of the stored lists is equality of the sets, whatever the insertion order or multiplicity. */
  lemma EqualityIsSetEquality(a: seq<DialectId>, xs: seq<DialectId>, b: seq<DialectId>, ys: seq<DialectId>)
    requires Represents(a, xs) && Represents(b, ys)
    ensures a == b <==> SameMembers(xs, ys)
  {
    if SameMembers(xs, ys) {
      assert SameMembers(a, b) by {
        assert forall id | id in a :: id in xs && id in ys && id in b;
        assert forall id | id in b :: id in ys && id in xs && id in a;
      }
      StrictlySortedUnique(a, b);
    }
    if a == b {
      assert forall id | id in xs :: id in a && id in ys;
      assert forall id | id in ys :: id in b && id in xs;
    }
  }

  lemma {:induction false} StrictlySortedUnique(a: seq<DialectId>, b: seq<DialectId>)
    requires StrictlySorted(a) && StrictlySorted(b) && SameMembers(a, b)
    ensures a == b
  {
    assert |b| > 0 ==> b[0] in a;
    assert |a| > 0 ==> a[0] in b;
    if a == [] {
    } else {
      IdOrderIsStrictTotal(a[0], b[0], a[0]);
      Behead(a, b);
      StrictlySortedUnique(a[1..], b[1..]);
      assert a == [a[0]] + a[1..] && b == [b[0]] + b[1..];
    }
  }

  lemma Behead(a: seq<DialectId>, b: seq<DialectId>)
    requires StrictlySorted(a) && StrictlySorted(b) && SameMembers(a, b) && a != [] && b != [] && a[0] == b[0]
    ensures SameMembers(a[1..], b[1..])
  {
    forall id ensures id in a[1..] <==> id in a && id != a[0] { TailMembers(a, id); }
    forall id ensures id in b[1..] <==> id in b && id != b[0] { TailMembers(b, id); }
  }

  lemma TailMembers(a: seq<DialectId>, id: DialectId)
    requires StrictlySorted(a) && a != []
    ensures id in a[1..] <==> id in a && id != a[0]
  {
    IdOrderIsStrictTotal(a[0], a[0], a[0]);
    if id in a[1..] {
      var i :| 0 <= i < |a[1..]| && a[1..][i] == id;
      assert IdLess(a[0], a[i + 1]);
    }
  }

  /** Binary search over the stored list. */
  method ContainsId(members: seq<DialectId>, id: DialectId) returns (found: bool)
    requires StrictlySorted(members)
    ensures found <==> id in members
  {
    var low, high := 0, |members|;
    while low < high
      invariant 0 <= low <= high <= |members|
      invariant forall i | 0 <= i < |members| && members[i] == id :: low <= i < high
    {
      var mid := low + (high - low) / 2;
      match Compare(members[mid], id) {
        case Equal =>
          CompareEqual(members[mid], id);
          return true;
        case Less =>
          SearchAbove(members, mid, id);
          low := mid + 1;
        case Greater =>
          SearchBelow(members, mid, id);
          high := mid;
      }
    }
    return false;
  }

  lemma SearchAbove(members: seq<DialectId>, mid: nat, id: DialectId)
    requires StrictlySorted(members) && mid < |members| && IdLess(members[mid], id)
    ensures forall i | 0 <= i < |members| && members[i] == id :: mid < i
  {
    forall i | 0 <= i < |members| && members[i] == id ensures mid < i {
      IdOrderIsStrictTotal(id, members[mid], id);
      IdOrderIsStrictTotal(id, id, id);
    }
  }

  lemma SearchBelow(members: seq<DialectId>, mid: nat, id: DialectId)
    requires StrictlySorted(members) && mid < |members| && Compare(members[mid], id).Greater?
    ensures forall i | 0 <= i < |members| && members[i] == id :: i < mid
  {
    CompareReverse(members[mid], id);
    forall i | 0 <= i < |members| && members[i] == id ensures i < mid {
      IdOrderIsStrictTotal(id, members[mid], id);
      IdOrderIsStrictTotal(id, id, id);
    }
  }
}
