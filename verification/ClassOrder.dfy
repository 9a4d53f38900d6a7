/** Structure classes: the insertion that keeps bases before their extensions, the walk up
    the inheritance chain, and the single reverse scan that should collect the same chain. */
module ClassOrder {
  import opened Common

  /** A class with no base has the empty string for it. */
  datatype ClassDef = ClassDef(name: string, base: string)

  /** A base that is in the list precedes its extensions. */
  predicate Ordered(list: seq<ClassDef>) {
    forall i, k :: 0 <= i < |list| && 0 <= k < |list| && Extends(list[k], list[i]) ==> i < k
  }

  predicate Extends(c: ClassDef, base: ClassDef) { c.base != "" && c.base == base.name }

  predicate Unique(list: seq<ClassDef>) {
    forall i, k :: 0 <= i < k < |list| ==> list[i].name != list[k].name
  }

  /** A class that can be added: a name of its own, not its own base. */
  predicate New(c: ClassDef, list: seq<ClassDef>) {
    c.name != "" && c.name != c.base && forall i :: 0 <= i < |list| ==> list[i].name != c.name
  }

  function InsertAt(list: seq<ClassDef>, p: nat, c: ClassDef): (longer: seq<ClassDef>)
    requires p <= |list|
    ensures |longer| == |list| + 1
    ensures forall i :: 0 <= i < |longer| ==>
              longer[i] == if i < p then list[i] else if i == p then c else list[i - 1]
  {
    list[..p] + [c] + list[p..]
  }

  /** Where the class goes, scanning from position `i`. */
  function Position(c: ClassDef, list: seq<ClassDef>, i: nat): (p: nat)
    requires i <= |list|
    ensures p <= |list|
    decreases |list| - i
  {
    if i == |list| then i
    else if list[i].name == c.base then i + 1
    else if list[i].base == c.base || list[i].base == c.name then i
    else Position(c, list, i + 1)
  }

  function Added(c: ClassDef, list: seq<ClassDef>): seq<ClassDef> {
    InsertAt(list, if c.base == "" then 0 else Position(c, list, 0), c)
  }

  /** The list before and after one class is added; exactly that class is new. */
  method AddStructureClass(c: ClassDef, list: seq<ClassDef>) returns (longer: seq<ClassDef>)
    ensures longer == Added(c, list)
    ensures multiset(longer) == multiset(list) + multiset{c}
    ensures c.base == "" ==> longer == [c] + list
  {
    if c.base == "" {
      longer := [c] + list;
    } else {
      var i := 0;
      while i < |list|
        invariant i <= |list| && Position(c, list, 0) == Position(c, list, i)
      {
        if list[i].name == c.base {
          longer := InsertAt(list, i + 1, c);
          InsertMultiset(list, i + 1, c);
          return;
        }
        if list[i].base == c.base || list[i].base == c.name {
          longer := InsertAt(list, i, c);
          InsertMultiset(list, i, c);
          return;
        }
        i := i + 1;
      }
      longer := list + [c];
      assert longer == InsertAt(list, |list|, c);
    }
  }

  lemma InsertMultiset(list: seq<ClassDef>, p: nat, c: ClassDef)
    requires p <= |list|
    ensures multiset(InsertAt(list, p, c)) == multiset(list) + multiset{c}
  {
    assert list == list[..p] + list[p..];
  }

  /** An extension of the new class stands before the new class's base, or is that base. */
  ghost predicate ExtensionBeforeBase(c: ClassDef, list: seq<ClassDef>) {
    exists i, k :: 0 <= i <= k < |list| && Extends(list[i], c) && Extends(c, list[k])
  }

  /** The scan passes over a class that is neither the base, nor a sibling, nor an
      extension of the new one. */
  predicate Unrelated(sc: ClassDef, c: ClassDef) {
    sc.name != c.base && sc.base != c.base && sc.base != c.name
  }

  /** Where the scan stops: just after the base, at a sibling or an extension, or at the end. */
  lemma {:induction false} PositionIs(c: ClassDef, list: seq<ClassDef>, i: nat)
    requires i <= |list|
    ensures var p := Position(c, list, i);
            && i <= p
            && (forall k :: i <= k < p - 1 ==> Unrelated(list[k], c))
            && (p > i && list[p - 1].name != c.base ==> Unrelated(list[p - 1], c))
            && ((p > i && list[p - 1].name == c.base)
                || p == |list|
                || (list[p].name != c.base && (list[p].base == c.base || list[p].base == c.name)))
    decreases |list| - i
  {
    if i < |list| && Unrelated(list[i], c) { PositionIs(c, list, i + 1); }
  }

  /** Where the elements of the longer list come from. */
  lemma Inserted(c: ClassDef, list: seq<ClassDef>, p: nat)
    requires p <= |list|
    ensures var longer := InsertAt(list, p, c);
            && longer[p] == c
            && (forall k :: 0 <= k < p ==> longer[k] == list[k])
            && (forall k :: p <= k < |list| ==> longer[k + 1] == list[k])
  {
  }

  lemma OrderedBefore(c: ClassDef, list: seq<ClassDef>, p: nat)
    requires p <= |list| && Ordered(InsertAt(list, p, c))
    ensures forall k :: p <= k < |list| ==> !Extends(c, list[k])
    ensures forall k :: 0 <= k < p ==> !Extends(list[k], c)
  {
    hide Extends, InsertAt;
    Inserted(c, list, p);
  }

  lemma InsertKeeps(c: ClassDef, list: seq<ClassDef>, p: nat)
    requires Ordered(list) && New(c, list) && p <= |list|
    requires forall k :: p <= k < |list| ==> !Extends(c, list[k])
    requires forall k :: 0 <= k < p ==> !Extends(list[k], c)
    ensures Ordered(InsertAt(list, p, c))
  {
    var longer := InsertAt(list, p, c);
    assert !Extends(c, c);
    hide Extends;
    forall i, k | 0 <= i < |longer| && 0 <= k < |longer| && Extends(longer[k], longer[i])
      ensures i < k
    {
      var i0 := if i < p then i else i - 1;
      var k0 := if k < p then k else k - 1;
      if i != p && k != p { assert Extends(list[k0], list[i0]); }
    }
  }

  /** Inserting at `p` keeps the order exactly when the base comes before `p` and every
      extension at or after it. */
  lemma InsertOrdered(c: ClassDef, list: seq<ClassDef>, p: nat)
    requires Ordered(list) && New(c, list) && p <= |list|
    ensures Ordered(InsertAt(list, p, c)) <==>
              && (forall k :: p <= k < |list| ==> !Extends(c, list[k]))
              && (forall k :: 0 <= k < p ==> !Extends(list[k], c))
  {
    hide Ordered, Extends, InsertAt, New;
    if Ordered(InsertAt(list, p, c)) { OrderedBefore(c, list, p); }
    if (forall k :: p <= k < |list| ==> !Extends(c, list[k])) && (forall k :: 0 <= k < p ==> !Extends(list[k], c)) {
      InsertKeeps(c, list, p);
    }
  }

  lemma AtBase(c: ClassDef, list: seq<ClassDef>, p: nat)
    requires Ordered(list) && Unique(list) && New(c, list) && c.base != ""
    requires 0 < p <= |list| && list[p - 1].name == c.base
    requires forall k :: 0 <= k < p - 1 ==> Unrelated(list[k], c)
    ensures Ordered(InsertAt(list, p, c)) <==> !ExtensionBeforeBase(c, list)
  {
    InsertOrdered(c, list, p);
    assert Extends(c, list[p - 1]);
    forall k | 0 <= k < |list| && k != p - 1 ensures !Extends(c, list[k]) {
      assert list[k].name != list[p - 1].name;
    }
  }

  lemma AtOther(c: ClassDef, list: seq<ClassDef>, p: nat)
    requires Ordered(list) && New(c, list) && c.base != "" && p <= |list|
    requires forall k :: 0 <= k < p ==> Unrelated(list[k], c)
    requires p < |list| ==> list[p].name != c.base && (list[p].base == c.base || list[p].base == c.name)
    ensures Ordered(InsertAt(list, p, c)) <==> !ExtensionBeforeBase(c, list)
  {
    InsertOrdered(c, list, p);
    if p < |list| && list[p].base == c.base {
      forall k | 0 <= k < |list| ensures !Extends(c, list[k]) {
        if Extends(c, list[k]) { assert Extends(list[p], list[k]); }
      }
    }
    if p < |list| && list[p].base == c.name {
      assert Extends(list[p], c);
    }
  }

  /** Adding a class keeps bases before extensions exactly when no extension of it already
      precedes its base. */
  lemma AddKeepsOrder(c: ClassDef, list: seq<ClassDef>)
    requires Ordered(list) && Unique(list) && New(c, list)
    ensures Ordered(Added(c, list)) <==> !ExtensionBeforeBase(c, list)
  {
    if c.base == "" {
      InsertOrdered(c, list, 0);
    } else {
      hide Ordered, ExtensionBeforeBase;
      var p := Position(c, list, 0);
      PositionIs(c, list, 0);
      if p > 0 && list[p - 1].name == c.base { AtBase(c, list, p); } else { AtOther(c, list, p); }
    }
  }

  /** In that case no position in the list would have kept the order either. */
  lemma NoPositionWouldDo(c: ClassDef, list: seq<ClassDef>, p: nat)
    requires Ordered(list) && New(c, list) && p <= |list| && ExtensionBeforeBase(c, list)
    ensures !Ordered(InsertAt(list, p, c))
  {
    InsertOrdered(c, list, p);
  }

  lemma AddKeepsUnique(c: ClassDef, list: seq<ClassDef>)
    requires Unique(list) && New(c, list)
    ensures Unique(Added(c, list))
  {
  }

  function AddAll(arrivals: seq<ClassDef>): seq<ClassDef> {
    if arrivals == [] then []
    else Added(arrivals[|arrivals| - 1], AddAll(arrivals[..|arrivals| - 1]))
  }

  /** No class of the list extends `c`, or none is its base. */
  ghost predicate OneSided(c: ClassDef, list: seq<ClassDef>) {
    (forall d :: d in list ==> !Extends(d, c)) || (forall d :: d in list ==> !Extends(c, d))
  }

  /** Each class that arrives is new and does not come between an extension of it and its base. */
  ghost predicate Arrivals(arrivals: seq<ClassDef>) {
    arrivals != [] ==>
      var n := |arrivals| - 1;
      Arrivals(arrivals[..n]) && New(arrivals[n], arrivals[..n]) && OneSided(arrivals[n], arrivals[..n])
  }

  /** Bases first, extensions first, or any mix in which no class arrives after both: the
      list keeps every base before its extensions, and holds exactly what arrived. */
  lemma {:induction false} ArrivalsKeepOrder(arrivals: seq<ClassDef>)
    requires Arrivals(arrivals)
    ensures Ordered(AddAll(arrivals)) && Unique(AddAll(arrivals))
    ensures multiset(AddAll(arrivals)) == multiset(arrivals)
  {
    if arrivals != [] {
      hide Ordered, Unique, New, OneSided, Added;
      var n := |arrivals| - 1;
      ArrivalsKeepOrder(arrivals[..n]);
      Append(arrivals, n);
      OneMore(arrivals[n], AddAll(arrivals[..n]), arrivals[..n]);
    } else {
      assert AddAll(arrivals) == [];
    }
  }

  lemma Append(arrivals: seq<ClassDef>, n: nat)
    requires |arrivals| == n + 1
    ensures multiset(arrivals) == multiset(arrivals[..n]) + multiset{arrivals[n]}
  {
    assert arrivals == arrivals[..n] + [arrivals[n]];
  }

  lemma OneMore(c: ClassDef, list: seq<ClassDef>, before: seq<ClassDef>)
    requires Ordered(list) && Unique(list) && multiset(list) == multiset(before)
    requires New(c, before) && OneSided(c, before)
    ensures Ordered(Added(c, list)) && Unique(Added(c, list))
    ensures multiset(Added(c, list)) == multiset(before) + multiset{c}
  {
    SameMembers(list, before);
    assert New(c, list) && !ExtensionBeforeBase(c, list) by {
      hide Ordered, Unique;
      assert forall i :: 0 <= i < |list| ==> list[i] in before;
    }
    hide Ordered, Unique, New, ExtensionBeforeBase, OneSided;
    AddKeepsUnique(c, list);
    AddKeepsOrder(c, list);
    InsertMultiset(list, if c.base == "" then 0 else Position(c, list, 0), c);
  }

  lemma SameMembers(list: seq<ClassDef>, before: seq<ClassDef>)
    requires multiset(list) == multiset(before)
    ensures forall d :: d in list <==> d in before
  {
    forall d ensures d in list <==> d in before {
      assert d in list <==> d in multiset(list);
      assert d in before <==> d in multiset(before);
    }
  }

  /** Taking a class out of an ordered list leaves it ordered: disorder never heals. */
  lemma DisorderStays(c: ClassDef, list: seq<ClassDef>, p: nat)
    requires p <= |list| && Ordered(InsertAt(list, p, c))
    ensures Ordered(list)
  {
    var longer := InsertAt(list, p, c);
    hide Extends;
    forall i, k | 0 <= i < |list| && 0 <= k < |list| && Extends(list[k], list[i]) ensures i < k {
      var i1, k1 := if i < p then i else i + 1, if k < p then k else k + 1;
      assert longer[i1] == list[i] && longer[k1] == list[k];
    }
  }

  /** Every class that arrives is new. */
  predicate AllNew(arrivals: seq<ClassDef>) {
    arrivals != [] ==>
      var n := |arrivals| - 1;
      AllNew(arrivals[..n]) && New(arrivals[n], arrivals[..n])
  }

  /** No class arrives after an extension of it that stands before its base. */
  ghost predicate NeverBetween(arrivals: seq<ClassDef>) {
    arrivals != [] ==>
      var n := |arrivals| - 1;
      NeverBetween(arrivals[..n]) && !ExtensionBeforeBase(arrivals[n], AddAll(arrivals[..n]))
  }

  lemma {:induction false} ListHolds(arrivals: seq<ClassDef>)
    requires AllNew(arrivals)
    ensures Unique(AddAll(arrivals)) && multiset(AddAll(arrivals)) == multiset(arrivals)
  {
    if arrivals != [] {
      hide Unique, New, Added;
      var n := |arrivals| - 1;
      ListHolds(arrivals[..n]);
      Append(arrivals, n);
      OneMoreHolds(arrivals[n], AddAll(arrivals[..n]), arrivals[..n]);
    } else {
      assert AddAll(arrivals) == [];
    }
  }

  lemma OneMoreHolds(c: ClassDef, list: seq<ClassDef>, before: seq<ClassDef>)
    requires Unique(list) && multiset(list) == multiset(before) && New(c, before)
    ensures New(c, list) && Unique(Added(c, list))
    ensures multiset(Added(c, list)) == multiset(before) + multiset{c}
  {
    SameMembers(list, before);
    assert New(c, list) by {
      hide Unique;
      assert forall i :: 0 <= i < |list| ==> list[i] in before;
    }
    hide Unique, New;
    AddKeepsUnique(c, list);
    InsertMultiset(list, if c.base == "" then 0 else Position(c, list, 0), c);
  }

  /** Whatever the order of arrival, the list ends with every base before its extensions
      exactly when no class arrived between an extension of it and its base. */
  lemma {:induction false} ArrivalsExactly(arrivals: seq<ClassDef>)
    requires AllNew(arrivals)
    ensures Ordered(AddAll(arrivals)) <==> NeverBetween(arrivals)
  {
    if arrivals != [] {
      hide Ordered, Unique, New, ExtensionBeforeBase;
      var n := |arrivals| - 1;
      var c, list := arrivals[n], AddAll(arrivals[..n]);
      ArrivalsExactly(arrivals[..n]);
      ListHolds(arrivals[..n]);
      OneMoreHolds(c, list, arrivals[..n]);
      if Ordered(list) {
        AddKeepsOrder(c, list);
      } else if Ordered(Added(c, list)) {
        DisorderStays(c, list, if c.base == "" then 0 else Position(c, list, 0));
      }
    } else {
      assert AddAll(arrivals) == [];
    }
  }

  /** Classes cannot arrive in any order: a chain that arrives leaf, base, middle ends with the
      middle class before its base, also once the root is there. */
  lemma ThreeLevelChainBreaks()
    ensures var arrivals := [ClassDef("C", "B"), ClassDef("A", "X"), ClassDef("B", "A"), ClassDef("X", "")];
            && AddAll(arrivals) == [ClassDef("X", ""), ClassDef("B", "A"), ClassDef("C", "B"), ClassDef("A", "X")]
            && !Ordered(AddAll(arrivals))
  {
    var c, a, b, x := ClassDef("C", "B"), ClassDef("A", "X"), ClassDef("B", "A"), ClassDef("X", "");
    var arrivals := [c, a, b, x];
    assert arrivals[..3] == [c, a, b] && [c, a, b][..2] == [c, a] && [c, a][..1] == [c] && [c][..0] == [];
    assert AddAll([c]) == [c];
    assert Position(a, [c], 0) == 1;
    assert AddAll([c, a]) == [c, a];
    assert Position(b, [c, a], 0) == 0;
    assert AddAll([c, a, b]) == [b, c, a];
    var list := AddAll(arrivals);
    assert list == [x, b, c, a];
    assert Extends(list[1], list[3]);
  }

  // ---- the inheritance chain ----

  /** The class of that name, the first in the list. */
  function FindClass(list: seq<ClassDef>, name: string): (found: Option<ClassDef>)
    ensures found.Some? ==> found.value in list && found.value.name == name
    ensures found == None ==> forall i :: 0 <= i < |list| ==> list[i].name != name
  {
    if list == [] then None else if list[0].name == name then Some(list[0]) else FindClass(list[1..], name)
  }

  /** A measure that falls from every class to its base: there is no cycle. */
  ghost predicate IsRank(list: seq<ClassDef>, rank: string -> nat) {
    forall i :: 0 <= i < |list| && list[i].base != "" ==> rank(list[i].base) < rank(list[i].name)
  }

  /** The classes found by looking up a name, then its base, and so on. */
  ghost function Walk(list: seq<ClassDef>, name: string, rank: string -> nat): seq<ClassDef>
    requires IsRank(list, rank)
    decreases rank(name)
  {
    if name == "" then []
    else
      match FindClass(list, name)
      case None => []
      case Some(c) => if c.base == "" then [c] else [c] + Walk(list, c.base, rank)
  }

  /** The names along the walk, ending with a base that is not in the list if there is one. */
  ghost function Ancestors(list: seq<ClassDef>, name: string, rank: string -> nat): seq<string>
    requires IsRank(list, rank)
    decreases rank(name)
  {
    if name == "" then []
    else
      match FindClass(list, name)
      case None => [name]
      case Some(c) => if c.base == "" then [name] else [name] + Ancestors(list, c.base, rank)
  }

  function NamesOf(classes: seq<ClassDef>): (names: seq<string>)
    ensures |names| == |classes| && forall i :: 0 <= i < |classes| ==> names[i] == classes[i].name
  {
    seq(|classes|, i requires 0 <= i < |classes| => classes[i].name)
  }

  /** The base the walk ends at without finding it, if any. */
  ghost function Dangling(list: seq<ClassDef>, name: string, rank: string -> nat): seq<string>
    requires IsRank(list, rank)
    decreases rank(name)
  {
    if name == "" then []
    else
      match FindClass(list, name)
      case None => [name]
      case Some(c) => if c.base == "" then [] else Dangling(list, c.base, rank)
  }

  lemma {:induction false} AncestorsAreChain(list: seq<ClassDef>, name: string, rank: string -> nat)
    requires IsRank(list, rank)
    ensures Ancestors(list, name, rank) == NamesOf(Walk(list, name, rank)) + Dangling(list, name, rank)
    decreases rank(name)
  {
    var found := FindClass(list, name);
    if name != "" && found.Some? && found.value.base != "" {
      AncestorsAreChain(list, found.value.base, rank);
      assert NamesOf(Walk(list, name, rank)) == [name] + NamesOf(Walk(list, found.value.base, rank));
    } else if name != "" && found.Some? {
      assert NamesOf([found.value]) == [name];
    }
  }

  // ---- when the walk ends ----

  /** The base of the class of that name; empty if there is no such class. */
  function Next(list: seq<ClassDef>, name: string): string {
    if name == "" then ""
    else
      match FindClass(list, name)
      case None => ""
      case Some(c) => c.base
  }

  /** The name that `n` steps up the chain lead to. */
  function Nth(list: seq<ClassDef>, name: string, n: nat): string {
    if n == 0 then name else Next(list, Nth(list, name, n - 1))
  }

  predicate EndsAt(list: seq<ClassDef>, base: string, seek: string, n: nat) {
    Nth(list, base, n) == "" || Nth(list, base, n) == seek
  }

  /** The name sought, an empty base or a missing class is met. */
  ghost predicate Ends(list: seq<ClassDef>, base: string, seek: string) {
    exists n: nat :: EndsAt(list, base, seek, n)
  }

  ghost predicate InChain(list: seq<ClassDef>, base: string, seek: string) {
    seek != "" && exists n: nat :: Nth(list, base, n) == seek
  }

  lemma {:induction false} EmptyStays(list: seq<ClassDef>, base: string, n: nat, i: nat)
    requires n <= i && Nth(list, base, n) == ""
    ensures Nth(list, base, i) == ""
  {
    if n < i { EmptyStays(list, base, n, i - 1); }
  }

  /** Nothing is met beyond an empty base. */
  lemma NotBeyond(list: seq<ClassDef>, base: string, seek: string, n: nat)
    requires Nth(list, base, n) == "" && forall i :: 0 <= i < n ==> Nth(list, base, i) != seek
    ensures !InChain(list, base, seek)
  {
    forall i: nat | seek != "" ensures Nth(list, base, i) != seek {
      if i >= n { EmptyStays(list, base, n, i); }
    }
  }

  /** Decides whether `c` is the class sought or an extension of it, whenever the walk ends. */
  method IsExtension(list: seq<ClassDef>, c: ClassDef, seek: string) returns (isExtension: bool)
    requires c.name == seek || Ends(list, c.base, seek)
    ensures isExtension <==> c.name == seek || InChain(list, c.base, seek)
  {
    if c.name == seek {
      return true;
    }
    ghost var end: nat :| EndsAt(list, c.base, seek, end);
    ghost var n: nat := 0;
    var check := c.base;
    while check != ""
      invariant n <= end && check == Nth(list, c.base, n)
      invariant forall i :: 0 <= i < n ==> Nth(list, c.base, i) != seek && Nth(list, c.base, i) != ""
      decreases end - n
    {
      if check == seek {
        return true;
      }
      var found := FindClass(list, check);
      if found == None {
        NotBeyond(list, c.base, seek, n + 1);
        return false;
      }
      check := found.value.base;
      n := n + 1;
    }
    NotBeyond(list, c.base, seek, n);
    return false;
  }

  lemma LeastEnd(list: seq<ClassDef>, base: string, seek: string, m: nat) returns (n: nat)
    requires EndsAt(list, base, seek, m)
    ensures n <= m && EndsAt(list, base, seek, n) && forall i :: 0 <= i < n ==> !EndsAt(list, base, seek, i)
  {
    n := 0;
    while !EndsAt(list, base, seek, n)
      invariant n <= m && forall i :: 0 <= i < n ==> !EndsAt(list, base, seek, i)
      decreases m - n
    {
      n := n + 1;
    }
  }

  lemma {:induction false} Repeats(list: seq<ClassDef>, base: string, i: nat, j: nat, d: nat)
    requires Nth(list, base, i) == Nth(list, base, j)
    ensures Nth(list, base, i + d) == Nth(list, base, j + d)
  {
    if d > 0 { Repeats(list, base, i, j, d - 1); }
  }

  /** No name is met twice up to step `n`. */
  predicate NoRepeat(list: seq<ClassDef>, base: string, n: nat) {
    forall i, j :: 0 <= i < j <= n ==> Nth(list, base, i) != Nth(list, base, j)
  }

  lemma LeastHasNoRepeat(list: seq<ClassDef>, base: string, seek: string, n: nat)
    requires EndsAt(list, base, seek, n) && forall i :: 0 <= i < n ==> !EndsAt(list, base, seek, i)
    ensures NoRepeat(list, base, n)
  {
    forall i, j | 0 <= i < j <= n ensures Nth(list, base, i) != Nth(list, base, j) {
      if Nth(list, base, i) == Nth(list, base, j) {
        Repeats(list, base, i, j, n - j);
        assert EndsAt(list, base, seek, i + (n - j));
      }
    }
  }

  function NamesUpto(list: seq<ClassDef>, base: string, n: nat): set<string> {
    if n == 0 then {} else NamesUpto(list, base, n - 1) + {Nth(list, base, n - 1)}
  }

  lemma {:induction false} NameIn(list: seq<ClassDef>, base: string, n: nat, name: string) returns (i: nat)
    requires name in NamesUpto(list, base, n)
    ensures i < n && Nth(list, base, i) == name
  {
    if name == Nth(list, base, n - 1) { i := n - 1; } else { i := NameIn(list, base, n - 1, name); }
  }

  lemma {:induction false} NamesAreMany(list: seq<ClassDef>, base: string, n: nat)
    requires n > 0 ==> NoRepeat(list, base, n - 1)
    ensures |NamesUpto(list, base, n)| == n
  {
    if n > 0 {
      NamesAreMany(list, base, n - 1);
      if Nth(list, base, n - 1) in NamesUpto(list, base, n - 1) {
        var i := NameIn(list, base, n - 1, Nth(list, base, n - 1));
      }
    }
  }

  function ClassNames(list: seq<ClassDef>): (names: set<string>)
    ensures |names| <= |list|
    ensures forall i :: 0 <= i < |list| ==> list[i].name in names
  {
    if list == [] then {} else {list[0].name} + ClassNames(list[1..])
  }

  lemma {:induction false} SubsetSize(a: set<string>, b: set<string>)
    requires a <= b
    ensures |a| <= |b|
  {
    if a != {} {
      var x :| x in a;
      SubsetSize(a - {x}, b - {x});
    }
  }

  /** A walk that ends does so within one step more than there are classes. */
  lemma EndsSoon(list: seq<ClassDef>, base: string, seek: string, n: nat)
    requires EndsAt(list, base, seek, n) && forall i :: 0 <= i < n ==> !EndsAt(list, base, seek, i)
    ensures n <= |list| + 1
  {
    if n > 1 {
      LeastHasNoRepeat(list, base, seek, n);
      NamesAreMany(list, base, n - 1);
      forall name | name in NamesUpto(list, base, n - 1) ensures name in ClassNames(list) {
        var i := NameIn(list, base, n - 1, name);
        assert !EndsAt(list, base, seek, i) && !EndsAt(list, base, seek, i + 1);
        assert Nth(list, base, i + 1) == Next(list, name);
      }
      SubsetSize(NamesUpto(list, base, n - 1), ClassNames(list));
    }
  }

  /** The walk ends exactly when the name sought, an empty base or a missing class is met
      before any name repeats, and then within one step more than there are classes: cycles
      elsewhere in the list do not matter. */
  lemma EndsExactly(list: seq<ClassDef>, base: string, seek: string)
    ensures Ends(list, base, seek) <==>
              exists n: nat :: EndsAt(list, base, seek, n) && NoRepeat(list, base, n) && n <= |list| + 1
  {
    hide EndsAt, NoRepeat;
    if m: nat :| EndsAt(list, base, seek, m) {
      var n := LeastEnd(list, base, seek, m);
      LeastHasNoRepeat(list, base, seek, n);
      EndsSoon(list, base, seek, n);
    }
  }

  lemma {:induction false} NthUp(list: seq<ClassDef>, name: string, n: nat)
    ensures Nth(list, name, n + 1) == Nth(list, Next(list, name), n)
  {
    if n > 0 { NthUp(list, name, n - 1); }
  }

  /** On a list without a cycle every walk ends, and the chain is that of the ancestors. */
  lemma {:induction false} ChainIsAncestors(list: seq<ClassDef>, name: string, seek: string, rank: string -> nat)
    requires IsRank(list, rank) && seek != ""
    ensures Ends(list, name, seek)
    ensures InChain(list, name, seek) <==> seek in Ancestors(list, name, rank)
    decreases rank(name)
  {
    var up := Next(list, name);
    forall n: nat ensures Nth(list, name, n + 1) == Nth(list, up, n) { NthUp(list, name, n); }
    if up != "" {
      ChainIsAncestors(list, up, seek, rank);
      ChainUp(list, name, seek);
    } else {
      assert EndsAt(list, name, seek, 1);
      if name != seek { NoneAbove(list, name, seek); } else { assert Nth(list, name, 0) == seek; }
    }
  }

  lemma NoneAbove(list: seq<ClassDef>, name: string, seek: string)
    requires Next(list, name) == "" && name != seek
    ensures !InChain(list, name, seek)
  {
    assert Nth(list, name, 1) == "";
    NotBeyond(list, name, seek, 1);
  }

  lemma ChainUp(list: seq<ClassDef>, name: string, seek: string)
    requires Ends(list, Next(list, name), seek)
    ensures Ends(list, name, seek)
    ensures InChain(list, name, seek) <==> seek != "" && (name == seek || InChain(list, Next(list, name), seek))
  {
    var up := Next(list, name);
    var m: nat :| EndsAt(list, up, seek, m);
    NthUp(list, name, m);
    assert EndsAt(list, name, seek, m + 1);
    if n: nat :| Nth(list, name, n) == seek {
      if n > 0 { NthUp(list, name, n - 1); }
    }
    if n: nat :| Nth(list, up, n) == seek {
      NthUp(list, name, n);
      assert Nth(list, name, n + 1) == seek;
    }
    assert Nth(list, name, 0) == name;
  }

  /** The reverse scan from position `i` down, for the class called `name`. */
  function ScanBack(list: seq<ClassDef>, i: nat, name: string): seq<ClassDef>
    requires i <= |list|
    decreases i
  {
    if i == 0 then []
    else if list[i - 1].name != name then ScanBack(list, i - 1, name)
    else if list[i - 1].base == "" then [list[i - 1]]
    else [list[i - 1]] + ScanBack(list, i - 1, list[i - 1].base)
  }

  /** The chain whose properties become the defaults of a class. */
  method CollectChain(list: seq<ClassDef>, s: ClassDef) returns (inheritance: seq<ClassDef>)
    ensures inheritance == if s.base == "" then [] else ScanBack(list, |list|, s.name)
  {
    inheritance := [];
    if s.base == "" {
      return;
    }
    var base := s.name;
    var i: nat := |list|;
    while i > 0
      invariant i <= |list| && inheritance + ScanBack(list, i, base) == ScanBack(list, |list|, s.name)
    {
      ghost var rest := ScanBack(list, i, base);
      i := i - 1;
      if list[i].name == base {
        assert rest == if list[i].base == "" then [list[i]] else [list[i]] + ScanBack(list, i, list[i].base);
        inheritance := inheritance + [list[i]];
        base := list[i].base;
        if base == "" {
          return;
        }
      }
    }
  }

  /** On any list the scan takes the last class of the name below `i` and goes on from there
      with its base: what stands behind a class that extends it is never found. */
  lemma {:induction false} ScanTakes(list: seq<ClassDef>, i: nat, name: string)
    requires i <= |list|
    ensures var r := ScanBack(list, i, name);
            if r == [] then forall k :: 0 <= k < i ==> list[k].name != name
            else
              exists k :: 0 <= k < i && list[k] == r[0] && r[0].name == name
                          && (forall j :: k < j < i ==> list[j].name != name)
                          && r[1..] == if r[0].base == "" then [] else ScanBack(list, k, r[0].base)
    decreases i
  {
    if i > 0 {
      if list[i - 1].name != name {
        ScanTakes(list, i - 1, name);
      } else {
        assert list[i - 1] == ScanBack(list, i, name)[0];
      }
    }
  }

  /** On an ordered list of distinct names, a class stands before `i` means that its whole
      chain does, so one reverse scan collects what repeated lookups find. */
  lemma {:induction false} ScanIsWalk(list: seq<ClassDef>, i: nat, name: string, rank: string -> nat)
    requires Ordered(list) && Unique(list) && IsRank(list, rank) && i <= |list| && name != ""
    requires forall k :: i <= k < |list| ==> list[k].name != name
    ensures ScanBack(list, i, name) == Walk(list, name, rank)
    decreases i
  {
    hide Ordered, Unique;
    if i > 0 {
      var c := list[i - 1];
      if c.name != name {
        ScanIsWalk(list, i - 1, name, rank);
      } else {
        UniqueFound(list, i - 1);
        if c.base != "" {
          BaseIsBefore(list, i - 1);
          ScanIsWalk(list, i - 1, c.base, rank);
        }
      }
    }
  }

  lemma BaseIsBefore(list: seq<ClassDef>, i: nat)
    requires Ordered(list) && i < |list| && list[i].base != ""
    ensures forall k :: i <= k < |list| ==> list[k].name != list[i].base
  {
    forall k | i <= k < |list| ensures list[k].name != list[i].base {
      assert Extends(list[i], list[k]) <==> list[i].base == list[k].name;
    }
  }

  lemma UniqueFound(list: seq<ClassDef>, i: nat)
    requires Unique(list) && i < |list|
    ensures FindClass(list, list[i].name) == Some(list[i])
  {
  }

  /** An ordered list of distinct names has no cycle. */
  lemma OrderedHasRank(list: seq<ClassDef>)
    requires Ordered(list) && Unique(list)
    ensures IsRank(list, (name: string) => IndexAfter(list, name))
  {
  }

  /** One past the position of the class of that name, or zero. */
  function IndexAfter(list: seq<ClassDef>, name: string): (n: nat)
    ensures n <= |list| && (n > 0 ==> list[n - 1].name == name)
    ensures n == 0 ==> forall i :: 0 <= i < |list| ==> list[i].name != name
  {
    if list == [] then 0
    else if list[|list| - 1].name == name then |list| else IndexAfter(list[..|list| - 1], name)
  }

}
