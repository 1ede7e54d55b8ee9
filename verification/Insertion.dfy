/** Where a child goes among its siblings: the `std::map` of a container, which keeps its
    keys in ascending order and at most one value per key. */
module Insertion {
  import opened Memory
  import opened Headers
  import opened Frames

  /** `insert_or_assign`: a child with the key is replaced, otherwise the new one goes
      where its key belongs. */
  function Insert(kids: seq<Node>, kid: Node): (r: seq<Node>)
    ensures |r| > 0
  {
    if kids == [] then [kid]
    else if kid.h.key < kids[0].h.key then [kid] + kids
    else if kid.h.key == kids[0].h.key then [kid] + kids[1..]
    else [kids[0]] + Insert(kids[1..], kid)
  }

  lemma {:induction false} InsertMembers(kids: seq<Node>, kid: Node)
    ensures forall n :: n in Insert(kids, kid) ==> n == kid || n in kids
  {
    if kids != [] && kid.h.key > kids[0].h.key {
      InsertMembers(kids[1..], kid);
    }
  }

  lemma {:induction false} InsertAscending(kids: seq<Node>, kid: Node)
    requires Ascending(kids)
    ensures Ascending(Insert(kids, kid))
  {
    if kids != [] {
      assert Ascending(kids[1..]);
      if kid.h.key > kids[0].h.key {
        InsertAscending(kids[1..], kid);
        InsertMembers(kids[1..], kid);
        AscendingCons(kids[0], Insert(kids[1..], kid));
      } else if kid.h.key == kids[0].h.key {
        AscendingCons(kid, kids[1..]);
      } else {
        AscendingCons(kid, kids);
      }
    }
  }

  lemma AscendingCons(n: Node, rest: seq<Node>)
    requires Ascending(rest) && forall m :: m in rest ==> n.h.key < m.h.key
    ensures Ascending([n] + rest)
  {
  }

  /** What a list of children holds, by key. */
  function ByKey(kids: seq<Node>): map<int32, Node> {
    if kids == [] then map[] else map[kids[0].h.key := kids[0]] + ByKey(kids[1..])
  }

  lemma ByKeyCons(n: Node, rest: seq<Node>)
    ensures ByKey([n] + rest) == map[n.h.key := n] + ByKey(rest)
  {
    assert ([n] + rest)[1..] == rest;
  }

  lemma {:induction false} ByKeyMember(kids: seq<Node>, k: int32)
    requires k in ByKey(kids)
    ensures ByKey(kids)[k] in kids && ByKey(kids)[k].h.key == k
  {
    if k in ByKey(kids[1..]) {
      ByKeyMember(kids[1..], k);
    }
  }

  lemma {:induction false} ByKeyAt(kids: seq<Node>, i: nat)
    requires Ascending(kids) && i < |kids|
    ensures kids[i].h.key in ByKey(kids) && ByKey(kids)[kids[i].h.key] == kids[i]
  {
    if i > 0 {
      ByKeyAt(kids[1..], i - 1);
    } else if kids[0].h.key in ByKey(kids[1..]) {
      ByKeyMember(kids[1..], kids[0].h.key);
    }
  }

  lemma AscendingTail(kids: seq<Node>)
    requires kids != [] && Ascending(kids)
    ensures Ascending(kids[1..]) && kids == [kids[0]] + kids[1..]
    ensures forall n :: n in kids[1..] ==> kids[0].h.key < n.h.key
  {
  }

  /** The last child inserted under a key is the one that counts. */
  lemma {:induction false} InsertByKey(kids: seq<Node>, kid: Node)
    requires Ascending(kids)
    ensures ByKey(Insert(kids, kid)) == ByKey(kids)[kid.h.key := kid]
  {
    if kids == [] {
      ByKeyCons(kid, []);
      assert [kid] + [] == [kid];
    } else {
      var first, rest := kids[0], kids[1..];
      AscendingTail(kids);
      hide Ascending, ByKey;
      ByKeyCons(first, rest);
      if kid.h.key > first.h.key {
        InsertByKey(rest, kid);
        ByKeyCons(first, Insert(rest, kid));
        UpdateBehind(ByKey(rest), first.h.key, first, kid.h.key, kid);
      } else if kid.h.key == first.h.key {
        NotAbove(rest, kid.h.key);
        ByKeyCons(kid, rest);
        UpdateFirst(ByKey(rest), kid.h.key, first, kid);
      } else {
        NotAbove(kids, kid.h.key);
        ByKeyCons(kid, kids);
        UpdateNew(ByKey(kids), kid.h.key, kid);
      }
    }
  }

  lemma NotAbove(kids: seq<Node>, k: int32)
    requires forall n :: n in kids ==> k < n.h.key
    ensures k !in ByKey(kids)
  {
    if k in ByKey(kids) {
      ByKeyMember(kids, k);
    }
  }

  lemma UpdateBehind<V>(m: map<int32, V>, a: int32, v: V, b: int32, w: V)
    ensures map[a := v] + m[b := w] == (map[a := v] + m)[b := w]
  {
  }

  lemma UpdateFirst<V>(m: map<int32, V>, a: int32, v: V, w: V)
    requires a !in m
    ensures map[a := w] + m == (map[a := v] + m)[a := w]
  {
  }

  lemma UpdateNew<V>(m: map<int32, V>, a: int32, v: V)
    requires a !in m
    ensures map[a := v] + m == m[a := v]
  {
  }

  /** Keys in the order in which a `std::map` is gone through. */
  function KeyOrder(keys: set<int32>): seq<int32>
    decreases |keys|
  {
    if keys == {} then []
    else
      LeastExists(keys);
      var k :| k in keys && forall j :: j in keys ==> k <= j;
      [k] + KeyOrder(keys - {k})
  }

  lemma LeastExists(keys: set<int32>)
    requires keys != {}
    ensures exists k :: k in keys && forall j :: j in keys ==> k <= j
  {
    var k := Least(keys);
  }

  lemma {:induction false} Least(keys: set<int32>) returns (least: int32)
    requires keys != {}
    ensures least in keys && forall j :: j in keys ==> least <= j
    decreases |keys|
  {
    var k :| k in keys;
    var rest := keys - {k};
    least := k;
    assert forall j :: j in keys ==> j == k || j in rest;
    if rest != {} {
      var other := Least(rest);
      if other < least {
        least := other;
      }
    }
  }

  lemma {:induction false} KeyOrderIs(keys: set<int32>)
    ensures forall k :: k in KeyOrder(keys) <==> k in keys
    ensures forall i, j :: 0 <= i < j < |KeyOrder(keys)| ==> KeyOrder(keys)[i] < KeyOrder(keys)[j]
    decreases |keys|
  {
    hide *;
    if keys == {} {
      NoOrder();
    } else {
      var k := Least(keys);
      LeastFirst(keys, k);
      KeyOrderIs(keys - {k});
      Prepended(keys, k, KeyOrder(keys - {k}));
    }
  }

  lemma NoOrder()
    ensures KeyOrder({}) == []
  {
  }

  lemma Prepended(keys: set<int32>, k: int32, rest: seq<int32>)
    requires k in keys && (forall j :: j in keys ==> k <= j) && forall j :: j in rest <==> j in keys - {k}
    requires forall i, j :: 0 <= i < j < |rest| ==> rest[i] < rest[j]
    ensures forall j :: j in [k] + rest <==> j in keys
    ensures forall i, j :: 0 <= i < j < |[k] + rest| ==> ([k] + rest)[i] < ([k] + rest)[j]
  {
    var order := [k] + rest;
    forall i, j | 0 <= i < j < |order|
      ensures order[i] < order[j]
    {
      assert rest[j - 1] in rest;
    }
  }

  /** It is the order of the children. */
  lemma {:induction false} OrderOfKids(kids: seq<Node>)
    requires Ascending(kids)
    ensures var order := KeyOrder(ByKey(kids).Keys);
            |order| == |kids| && forall i :: 0 <= i < |kids| ==> order[i] == kids[i].h.key
  {
    if kids != [] {
      var k, rest := kids[0].h.key, kids[1..];
      AscendingTail(kids);
      OrderOfKids(rest);
      NotAbove(rest, k);
      ByKeyCons(kids[0], rest);
      KeysAbove(rest, k);
      hide Ascending, ByKey, KeyOrder;
      assert ByKey(kids).Keys == {k} + ByKey(rest).Keys && ByKey(kids).Keys - {k} == ByKey(rest).Keys;
      LeastFirst(ByKey(kids).Keys, k);
    }
  }

  lemma KeysAbove(kids: seq<Node>, k: int32)
    requires forall n :: n in kids ==> k < n.h.key
    ensures forall j :: j in ByKey(kids) ==> k < j
  {
    forall j | j in ByKey(kids)
      ensures k < j
    {
      ByKeyMember(kids, j);
    }
  }

  lemma LeastFirst(keys: set<int32>, k: int32)
    requires k in keys && forall j :: j in keys ==> k <= j
    ensures KeyOrder(keys) == [k] + KeyOrder(keys - {k})
  {
  }

  /** The container after `emplace`. */
  function AfterPut(n: Node, kid: Node): Node
    requires n.Box?
  {
    Box(n.h.(dataType := TYPE_CONTAINER), Insert(n.kids, kid))
  }

  /** `emplace` marks the container as one and otherwise leaves its own header alone; under
      the new key there is the new child, and under every other what was there. */
  lemma AfterPutIs(n: Node, kid: Node)
    requires n.Box? && Ascending(n.kids)
    ensures var m := AfterPut(n, kid);
            && m.Box? && m.h == n.h.(dataType := 1) && Ascending(m.kids)
            && ByKey(m.kids) == ByKey(n.kids)[kid.h.key := kid]
  {
    InsertByKey(n.kids, kid);
    InsertAscending(n.kids, kid);
    hide ByKey, Insert, Ascending;
  }

  /** The place a search from the front finds is where the child belongs. */
  lemma {:induction false} InsertAt(kids: seq<Node>, kid: Node, i: nat, j: nat)
    requires i <= j <= |kids| && j <= i + 1
    requires forall k :: 0 <= k < i ==> kids[k].h.key < kid.h.key
    requires i < |kids| ==> kid.h.key <= kids[i].h.key
    requires j == i + 1 <==> i < |kids| && kids[i].h.key == kid.h.key
    ensures Insert(kids, kid) == kids[..i] + [kid] + kids[j..]
  {
    if i == 0 {
      assert kids[..0] + [kid] + kids[j..] == [kid] + kids[j..];
      assert kids[0..] == kids;
    } else {
      InsertAt(kids[1..], kid, i - 1, j - 1);
      CutBehind(kids, kid, i, j);
    }
  }

  lemma CutBehind<T>(s: seq<T>, x: T, i: nat, j: nat)
    requires 1 <= i <= j <= |s|
    ensures [s[0]] + (s[1..][..i - 1] + [x] + s[1..][j - 1..]) == s[..i] + [x] + s[j..]
  {
    assert s[1..][j - 1..] == s[j..] && s[..i] == [s[0]] + s[1..][..i - 1];
  }

  lemma InsertedSized(n: Node, kid: Node)
    requires n.Box? && Sized(n) && Sized(kid) && |Payload(AfterPut(n, kid))| <= MAX_DSON_RAM_SIZE
    ensures Sized(AfterPut(n, kid))
  {
    var kids := Insert(n.kids, kid);
    InsertMembers(n.kids, kid);
    hide Payload, LeafSized, Insert;
    forall i | 0 <= i < |kids|
      ensures Sized(kids[i])
    {
      assert kids[i] in kids;
    }
  }

  lemma AfterPutParts(n: Node, kid: Node)
    requires n.Box? && Sized(n) && Ascending(n.kids) && Sized(kid) && |Payload(AfterPut(n, kid))| <= MAX_DSON_RAM_SIZE
    ensures var m := AfterPut(n, kid);
            m.Box? && m.kids == Insert(n.kids, kid) && Sized(m) && Ascending(m.kids)
  {
    InsertedSized(n, kid);
    InsertAscending(n.kids, kid);
  }

  /** The object after `set_key`. */
  function WithKey(n: Node, key: int32): Node {
    match n
    case Leaf(h, d) => Leaf(h.(key := key), d)
    case Text(h, d) => Node.Text(h.(key := key), d)
    case Box(h, kids) => Box(h.(key := key), kids)
  }

  /** `set_key` changes the key in the header and nothing else. */
  lemma WithKeyIs(n: Node, key: int32)
    ensures var m := WithKey(n, key);
            && m.h == n.h.(key := key) && m.Leaf? == n.Leaf? && m.Text? == n.Text? && m.Box? == n.Box?
            && (if n.Box? then m.kids == n.kids else m.data == n.data)
  {
  }

  lemma WithKeySized(n: Node, key: int32)
    requires Sized(n)
    ensures Sized(WithKey(n, key)) && |Payload(WithKey(n, key))| == |Payload(n)|
  {
  }
}
