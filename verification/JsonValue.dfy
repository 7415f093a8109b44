/**
 JSON values (Json::Value of libdtuconfigure/jsoncpp.cpp). An object's members are the entries of the
 source's ordered map, listed in key order.
 */
module JsonValue {

  datatype Json =
    | Null
    | Bool(b: bool)
    | Int(i: int)
    | UInt(u: int)
    | Real(digits: string)  // the text handed to the floating-point decoder
    | Str(s: string)
    | Arr(items: seq<Json>)
    | Obj(members: seq<Member>)

  datatype Member = Member(name: string, value: Json)

  predicate IsEmptyContainer(v: Json) { (v.Arr? && v.items == []) || (v.Obj? && v.members == []) }

  predicate IsContainer(v: Json) { v.Arr? || v.Obj? }

  // ---------------------------------------------------------------- keys

  /** CZString::operator<: byte by byte, then by length. */
  predicate KeyLess(a: string, b: string) {
    if b == "" then false
    else if a == "" then true
    else if a[0] != b[0] then a[0] < b[0]
    else KeyLess(a[1..], b[1..])
  }

  lemma {:induction false} KeyLessIsStrict(a: string, b: string)
    requires KeyLess(a, b)
    ensures a != b && !KeyLess(b, a)
  {
    if a != "" && a[0] == b[0] {
      KeyLessIsStrict(a[1..], b[1..]);
    }
  }

  lemma {:induction false} KeyLessTotal(a: string, b: string)
    ensures KeyLess(a, b) || a == b || KeyLess(b, a)
  {
    if a != "" && b != "" && a[0] == b[0] {
      KeyLessTotal(a[1..], b[1..]);
      assert a == [a[0]] + a[1..] && b == [b[0]] + b[1..];
    }
  }

  lemma {:induction false} KeyLessTransitive(a: string, b: string, c: string)
    requires KeyLess(a, b) && KeyLess(b, c)
    ensures KeyLess(a, c)
  {
    if a != "" && a[0] == b[0] == c[0] {
      KeyLessTransitive(a[1..], b[1..], c[1..]);
    }
  }

  /** The bytes of a and b agree up to n, where a ends or has the smaller one. */
  predicate DecidedAt(a: string, b: string, n: nat) {
    n <= |a| && n < |b| && a[..n] == b[..n] && (n == |a| || a[n] < b[n])
  }

  /** The order is that of the first byte that differs, and of the length where none does. */
  lemma {:induction false} KeyLessByBytes(a: string, b: string)
    ensures KeyLess(a, b) <==> exists n: nat :: DecidedAt(a, b, n)
  {
    if a != "" && b != "" && a[0] == b[0] {
      KeyLessByBytes(a[1..], b[1..]);
      forall n: nat | DecidedAt(a[1..], b[1..], n) ensures DecidedAt(a, b, n + 1) {
        assert a[..n + 1] == [a[0]] + a[1..][..n] && b[..n + 1] == [b[0]] + b[1..][..n];
      }
      forall n: nat | DecidedAt(a, b, n) ensures n > 0 && DecidedAt(a[1..], b[1..], n - 1) {
        assert a[1..][..n - 1] == a[..n][1..] && b[1..][..n - 1] == b[..n][1..];
      }
      if KeyLess(a, b) {
        var n: nat :| DecidedAt(a[1..], b[1..], n);
        assert DecidedAt(a, b, n + 1);
      }
    } else if KeyLess(a, b) {
      assert DecidedAt(a, b, 0);
    } else {
      forall n: nat ensures !DecidedAt(a, b, n) {
        if n > 0 && n <= |a| && n < |b| {
          assert a[..n][0] == a[0] && b[..n][0] == b[0];
        }
      }
    }
  }

  predicate SortedKeys(ms: seq<Member>) {
    forall i, j :: 0 <= i < j < |ms| ==> KeyLess(ms[i].name, ms[j].name)
  }

  /** The value stored under a name (find). */
  function Find(ms: seq<Member>, name: string): (r: Json)
    decreases |ms|
  {
    if ms == [] then Null else if ms[0].name == name then ms[0].value else Find(ms[1..], name)
  }

  predicate HasMember(ms: seq<Member>, name: string) { exists k :: 0 <= k < |ms| && ms[k].name == name }

  /** operator[] followed by storing a value: replaces the entry, or inserts one at its lower bound. */
  function Assign(ms: seq<Member>, name: string, value: Json): (r: seq<Member>)
    decreases |ms|
  {
    if ms == [] then [Member(name, value)]
    else if ms[0].name == name then [Member(name, value)] + ms[1..]
    else if KeyLess(name, ms[0].name) then [Member(name, value)] + ms
    else [ms[0]] + Assign(ms[1..], name, value)
  }

  lemma {:induction false} AssignAppends(ms: seq<Member>, name: string, value: Json)
    requires forall k :: 0 <= k < |ms| ==> KeyLess(ms[k].name, name)
    ensures Assign(ms, name, value) == ms + [Member(name, value)]
    ensures !HasMember(ms, name)
    decreases |ms|
  {
    forall k | 0 <= k < |ms| ensures ms[k].name != name {
      KeyLessIsStrict(ms[k].name, name);
    }
    if ms != [] {
      KeyLessIsStrict(ms[0].name, name);
      AssignAppends(ms[1..], name, value);
    }
  }

  // ---------------------------------------------------------------- storing under a key

  /** Storing changes what is found under its own name and under no other. */
  lemma {:induction false} FindAssigned(ms: seq<Member>, name: string, value: Json, n: string)
    ensures Find(Assign(ms, name, value), n) == if n == name then value else Find(ms, n)
    ensures HasMember(Assign(ms, name, value), n) <==> n == name || HasMember(ms, n)
    decreases |ms|
  {
    var r := Assign(ms, name, value);
    HasFirst(r, n);
    HasFirst(ms, n);
    if ms != [] && ms[0].name != name && !KeyLess(name, ms[0].name) {
      FindAssigned(ms[1..], name, value, n);
      assert r[1..] == Assign(ms[1..], name, value);
    } else if ms != [] {
      assert r[1..] == if ms[0].name == name then ms[1..] else ms;
      HasFirst(ms[1..], n);
    }
  }

  lemma HasFirst(ms: seq<Member>, n: string)
    ensures HasMember(ms, n) <==> ms != [] && (ms[0].name == n || HasMember(ms[1..], n))
  {
    if ms != [] && HasMember(ms[1..], n) {
      var k :| 0 <= k < |ms[1..]| && ms[1..][k].name == n;
      assert ms[k + 1].name == n;
    }
    if HasMember(ms, n) && ms[0].name != n {
      var k :| 0 <= k < |ms| && ms[k].name == n;
      assert ms[1..][k - 1].name == n;
    }
  }

  predicate Behind(name: string, ms: seq<Member>) { forall k :: 0 <= k < |ms| ==> KeyLess(name, ms[k].name) }

  lemma SortedFirst(ms: seq<Member>)
    requires ms != []
    ensures SortedKeys(ms) <==> Behind(ms[0].name, ms[1..]) && SortedKeys(ms[1..])
  {
    hide KeyLess;
    var later := ms[1..];
    assert forall k :: 0 <= k < |later| ==> later[k] == ms[k + 1];
    if Behind(ms[0].name, later) && SortedKeys(later) {
      forall i, j | 0 <= i < j < |ms| ensures KeyLess(ms[i].name, ms[j].name) {
        assert ms[j] == later[j - 1] && (i > 0 ==> ms[i] == later[i - 1]);
      }
    }
  }

  lemma {:induction false} AssignStaysBehind(ms: seq<Member>, name: string, value: Json, first: string)
    requires Behind(first, ms) && KeyLess(first, name)
    ensures Behind(first, Assign(ms, name, value))
    decreases |ms|
  {
    hide KeyLess;
    if ms != [] && ms[0].name != name && !KeyLess(name, ms[0].name) {
      AssignStaysBehind(ms[1..], name, value, first);
    }
  }

  /** Storing keeps the keys sorted, whatever the order in which they come. */
  lemma {:induction false} AssignKeepsSorted(ms: seq<Member>, name: string, value: Json)
    requires SortedKeys(ms)
    ensures SortedKeys(Assign(ms, name, value))
    decreases |ms|
  {
    hide KeyLess, SortedKeys, Behind;
    var r := Assign(ms, name, value);
    SortedFirst(r);
    if ms == [] {
      NothingBehind(name);
    } else {
      SortedFirst(ms);
      if ms[0].name == name {
        assert r[1..] == ms[1..];
      } else if KeyLess(name, ms[0].name) {
        assert r[1..] == ms;
        BehindAll(name, ms);
      } else {
        assert r[1..] == Assign(ms[1..], name, value);
        AssignKeepsSorted(ms[1..], name, value);
        KeyLessTotal(name, ms[0].name);
        AssignStaysBehind(ms[1..], name, value, ms[0].name);
      }
    }
  }

  lemma NothingBehind(name: string)
    ensures Behind(name, []) && SortedKeys([])
  {
  }

  lemma BehindAll(name: string, ms: seq<Member>)
    requires ms != [] && KeyLess(name, ms[0].name) && Behind(ms[0].name, ms[1..])
    ensures Behind(name, ms)
  {
    hide KeyLess;
    forall k | 0 <= k < |ms| ensures KeyLess(name, ms[k].name) {
      if k > 0 {
        assert ms[k] == ms[1..][k - 1];
        KeyLessTransitive(name, ms[0].name, ms[k].name);
      }
    }
  }

  /** In sorted order a set of members with these names and values is one sequence. */
  lemma {:induction false} SortedIsUnique(x: seq<Member>, y: seq<Member>)
    requires SortedKeys(x) && SortedKeys(y)
    requires forall n: string :: (HasMember(x, n) <==> HasMember(y, n)) && Find(x, n) == Find(y, n)
    ensures x == y
    decreases |x|
  {
    hide KeyLess;
    if x == [] {
      if y != [] {
        HasFirst(y, y[0].name);
        HasFirst(x, y[0].name);
      }
    } else {
      HasFirst(x, x[0].name);
      if y == [] {
        HasFirst(y, x[0].name);
      }
      SortedFirst(x);
      SortedFirst(y);
      HasFirst(y, y[0].name);
      HasFirst(y, x[0].name);
      HasFirst(x, y[0].name);
      FirstIsLeast(x, y[0].name);
      FirstIsLeast(y, x[0].name);
      if x[0].name != y[0].name {
        KeyLessIsStrict(x[0].name, y[0].name);
      }
      assert x[0].name == y[0].name && Find(x, x[0].name) == Find(y, x[0].name);
      forall n: string
        ensures (HasMember(x[1..], n) <==> HasMember(y[1..], n)) && Find(x[1..], n) == Find(y[1..], n)
      {
        HasFirst(x, n);
        HasFirst(y, n);
        NotAgain(x, n);
        NotAgain(y, n);
      }
      SortedIsUnique(x[1..], y[1..]);
      assert x == [x[0]] + x[1..] && y == [y[0]] + y[1..];
    }
  }

  lemma FirstIsLeast(ms: seq<Member>, n: string)
    requires SortedKeys(ms) && HasMember(ms, n)
    ensures ms != [] && (ms[0].name == n || KeyLess(ms[0].name, n))
  {
    hide KeyLess;
  }

  lemma {:induction false} NotAgain(ms: seq<Member>, n: string)
    requires SortedKeys(ms) && ms != []
    ensures n == ms[0].name ==> !HasMember(ms[1..], n) && Find(ms[1..], n) == Null
  {
    hide KeyLess;
    if n == ms[0].name {
      if HasMember(ms[1..], n) {
        var k :| 0 <= k < |ms[1..]| && ms[1..][k].name == n;
        assert ms[k + 1] == ms[1..][k];
        KeyLessIsStrict(ms[0].name, ms[k + 1].name);
      } else {
        FindNothing(ms[1..], n);
      }
    }
  }

  lemma {:induction false} FindNothing(ms: seq<Member>, n: string)
    requires !HasMember(ms, n)
    ensures Find(ms, n) == Null
    decreases |ms|
  {
    if ms != [] {
      HasFirst(ms, n);
      FindNothing(ms[1..], n);
    }
  }

  // ---------------------------------------------------------------- nesting depth and the signedness tag

  function Depth(v: Json): nat
    ensures Depth(v) >= 1
    decreases v, 0
  {
    match v
    case Arr(items) => 1 + DepthOfItems(items, 0)
    case Obj(members) => 1 + DepthOfMembers(members, 0)
    case _ => 1
  }

  function DepthOfItems(items: seq<Json>, k: nat): nat
    requires k <= |items|
    decreases items, |items| - k
  {
    if k == |items| then 0
    else
      var d := DepthOfItems(items, k + 1);
      if Depth(items[k]) > d then Depth(items[k]) else d
  }

  function DepthOfMembers(members: seq<Member>, k: nat): nat
    requires k <= |members|
    decreases members, |members| - k
  {
    if k == |members| then 0
    else
      var d := DepthOfMembers(members, k + 1);
      if Depth(members[k].value) > d then Depth(members[k].value) else d
  }
}
