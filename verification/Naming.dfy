/** Names of user objects: generated names, the search for an unused one, and renaming in a
    dictionary that a parent (or the program) keeps of its objects. */
module Naming {
  import opened Common
  import opened Decimal

  const UINT32_SPAN: int := 0x1_0000_0000

  type Sequence = x: int | 0 <= x < UINT32_SPAN

  type Id = x: int | -0x8000_0000 <= x < 0x8000_0000

  /** The counter wraps around. */
  function Wrapped(x: int): Sequence { x % UINT32_SPAN }

  /** The counter as the signed number it is printed as. */
  function AsId(x: int): Id {
    if Wrapped(x) < 0x8000_0000 then Wrapped(x) else Wrapped(x) - UINT32_SPAN
  }

  /** The id is the counter, up to whole turns. */
  lemma IdOfCounter(x: int)
    ensures (x - AsId(x)) % 0x1_0000_0000 == 0
  {
    var q := x / UINT32_SPAN;
    assert x == q * UINT32_SPAN + Wrapped(x);
    assert x - AsId(x) == (if Wrapped(x) < 0x8000_0000 then q else q + 1) * UINT32_SPAN;
    TurnsVanish(if Wrapped(x) < 0x8000_0000 then q else q + 1);
  }

  lemma TurnsVanish(q: int)
    ensures (q * UINT32_SPAN) % UINT32_SPAN == 0
  {
  }

  lemma WrapOnce(x: int, q: int)
    ensures Wrapped(x + q * UINT32_SPAN) == Wrapped(x)
  {
    assert x + q * UINT32_SPAN == (q + x / UINT32_SPAN) * UINT32_SPAN + x % UINT32_SPAN;
  }

  lemma WrapAdd(x: int, y: int)
    ensures Wrapped(Wrapped(x) + y) == Wrapped(x + y)
  {
    var q := x / UINT32_SPAN;
    assert x + y == Wrapped(x) + y + q * UINT32_SPAN;
    WrapOnce(Wrapped(x) + y, q);
  }

  // ---- generated names ----

  function Zeros(n: nat): (s: string)
    ensures |s| == n && forall i :: 0 <= i < n ==> s[i] == '0'
  {
    seq(n, i => '0')
  }

  /** Zeros on the left, up to a width. */
  function Padded(digits: string, width: nat): (s: string)
    requires forall i :: 0 <= i < |digits| ==> IsDigit(digits[i])
    ensures forall i :: 0 <= i < |s| ==> IsDigit(s[i])
    ensures |s| == if |digits| < width then width else |digits|
  {
    Zeros(if |digits| < width then width - |digits| else 0) + digits
  }

  /** A sign if negative, and at least three characters. */
  function PaddedId(id: int): string {
    if id < 0 then "-" + Padded(Digits(-id), 2) else Padded(Digits(id), 3)
  }

  function FullName(id: int, prefix: string): string {
    (if prefix == "" then "Untitled_" else prefix + "_Untitled_") + PaddedId(id)
  }

  const BUFFER: nat := 40

  /** The name as it fits in the buffer with its terminator. */
  function MakeName(id: int, prefix: string): (name: string)
    ensures |name| < BUFFER
    ensures |FullName(id, prefix)| < BUFFER <==> name == FullName(id, prefix)
  {
    var full := FullName(id, prefix);
    if |full| < BUFFER then full else full[..BUFFER - 1]
  }

  lemma {:induction false} ValueOfPadded(zeros: nat, digits: string)
    requires forall i :: 0 <= i < |digits| ==> IsDigit(digits[i])
    ensures Value(Zeros(zeros) + digits) == Value(digits)
    decreases |digits|, zeros
  {
    var s := Zeros(zeros) + digits;
    if digits != [] {
      assert s[..|s| - 1] == Zeros(zeros) + digits[..|digits| - 1];
      ValueOfPadded(zeros, digits[..|digits| - 1]);
    } else if zeros > 0 {
      assert s[..|s| - 1] == Zeros(zeros - 1) + digits;
      ValueOfPadded(zeros - 1, digits);
    }
  }

  lemma PaddedInjective(m: nat, n: nat, width: nat)
    requires Padded(Digits(m), width) == Padded(Digits(n), width)
    ensures m == n
  {
    hide Digits, Value, Zeros;
    ValueOfPadded(if |Digits(m)| < width then width - |Digits(m)| else 0, Digits(m));
    ValueOfPadded(if |Digits(n)| < width then width - |Digits(n)| else 0, Digits(n));
    ValueOfDigits(m);
    ValueOfDigits(n);
  }

  lemma PaddedIdInjective(a: int, b: int)
    requires PaddedId(a) == PaddedId(b)
    ensures a == b
  {
    hide Digits;
    var p, q := PaddedId(a), PaddedId(b);
    assert (a < 0 <==> p[0] == '-') && (b < 0 <==> q[0] == '-');
    if a < 0 && b < 0 {
      assert p[1..] == Padded(Digits(-a), 2) && q[1..] == Padded(Digits(-b), 2);
      PaddedInjective(-a, -b, 2);
    } else if a >= 0 && b >= 0 {
      PaddedInjective(a, b, 3);
    }
  }

  lemma {:induction false} LeadingDigit(n: nat)
    ensures n > 0 ==> Digits(n)[0] != '0'
    ensures n < 10 ==> |Digits(n)| == 1
  {
    if n >= 10 { LeadingDigit(n / 10); }
  }

  /** The number of a generated name reads as the id, has at least three characters, and no
      more zeros in front than that takes. */
  lemma PaddedIdMeans(id: Id)
    ensures var s := PaddedId(id);
            && Read(s) == id && |s| >= 3
            && (|s| > 3 ==> s[if id < 0 then 1 else 0] != '0')
            && (id < 0 <==> s[0] == '-')
            && forall i :: 0 < i < |s| ==> IsDigit(s[i])
  {
    hide Digits, Value, Zeros, Read;
    var n := Magnitude(id);
    var zeros := if id < 0 then if |Digits(n)| < 2 then 2 - |Digits(n)| else 0
                 else if |Digits(n)| < 3 then 3 - |Digits(n)| else 0;
    LeadingDigit(n);
    ValueOfPadded(zeros, Digits(n));
    ValueOfDigits(n);
    var digits := Zeros(zeros) + Digits(n);
    assert zeros == 0 ==> digits == Digits(n);
    ReadDigits(digits);
  }

  /** What a generated name looks like. */
  lemma FirstNames()
    ensures MakeName(2, "") == "Untitled_002" && MakeName(3, "Button") == "Button_Untitled_003"
    ensures Trial(1, 1, "") == "Untitled_002"
  {
    assert Zeros(2) == "00" && PaddedId(2) == "002" && PaddedId(3) == "003";
  }

  /** Names that fit in the buffer are different for different ids. */
  lemma NamesDiffer(a: int, b: int, prefix: string)
    requires |FullName(a, prefix)| < BUFFER && |FullName(b, prefix)| < BUFFER
    ensures MakeName(a, prefix) == MakeName(b, prefix) <==> a == b
  {
    hide PaddedId;
    var stem := if prefix == "" then "Untitled_" else prefix + "_Untitled_";
    if MakeName(a, prefix) == MakeName(b, prefix) {
      assert FullName(a, prefix)[|stem|..] == PaddedId(a);
      assert FullName(b, prefix)[|stem|..] == PaddedId(b);
      PaddedIdInjective(a, b);
    }
  }

  function Power10(k: nat): int { if k == 0 then 1 else 10 * Power10(k - 1) }

  lemma {:induction false} DigitsBounded(n: nat, k: nat)
    requires 0 < k && n < Power10(k)
    ensures |Digits(n)| <= k
  {
    if n >= 10 {
      assert Power10(1) == 10;
      DigitsBounded(n / 10, k - 1);
    }
  }

  const SHORT_PREFIX: nat := 18

  /** With no more than eighteen characters of prefix every 32-bit id fits. */
  lemma ShortNamesFit(id: Id, prefix: string)
    requires |prefix| <= SHORT_PREFIX
    ensures |FullName(id, prefix)| < BUFFER
  {
    hide Digits;
    assert Power10(10) == 10_000_000_000 by {
      assert Power10(5) == 100_000;
      assert Power10(10) == 100_000 * Power10(5);
    }
    var n: int := id;
    DigitsBounded(if n < 0 then -n else n, 10);
  }

  /** A prefix of twenty-nine characters leaves no room for the number: all names are one. */
  lemma LongNamesCollide(a: int, b: int, prefix: string)
    requires |prefix| >= 29
    ensures MakeName(a, prefix) == MakeName(b, prefix) == (prefix + "_Untitled_")[..BUFFER - 1]
  {
  }

  // ---- the search for an unused name ----

  /** The name tried `k` counts on. */
  function Trial(sequence: int, k: int, prefix: string): string { MakeName(AsId(sequence + k), prefix) }

  /** Unused, or already the object's own. */
  predicate Acceptable<T(==)>(dict: map<string, T>, o: Option<T>, name: string) {
    name in dict ==> Some(dict[name]) == o
  }

  /** The first acceptable trial is the one `k` counts on. */
  ghost predicate FirstAcceptable<T>(dict: map<string, T>, o: Option<T>, sequence: int, prefix: string, k: int) {
    && 1 <= k
    && Acceptable(dict, o, Trial(sequence, k, prefix))
    && forall j :: 1 <= j < k ==> !Acceptable(dict, o, Trial(sequence, j, prefix))
  }

  /** The count within one turn that has the same trial. */
  function Turn(k: int): (turn: int)
    ensures 1 <= turn <= UINT32_SPAN
  {
    Wrapped(k - 1) + 1
  }

  lemma TurnId(sequence: Sequence, k: int)
    ensures AsId(sequence + k) == AsId(sequence + Turn(k))
  {
    hide Wrapped;
    WrapAdd(k - 1, sequence + 1);
  }

  lemma TrialsRepeat(sequence: Sequence, k: int, prefix: string)
    ensures Trial(sequence, k, prefix) == Trial(sequence, Turn(k), prefix)
  {
    hide MakeName, FullName;
    TurnId(sequence, k);
  }

  /** The search ends if and only if one of the trials of a whole turn of the counter is
      acceptable. */
  lemma SearchEnds<T>(dict: map<string, T>, o: Option<T>, sequence: Sequence, prefix: string)
    ensures (exists k: nat :: FirstAcceptable(dict, o, sequence, prefix, k))
            <==> (exists k :: 1 <= k <= UINT32_SPAN && Acceptable(dict, o, Trial(sequence, k, prefix)))
  {
    hide Acceptable, Trial, Turn, MakeName, FullName;
    if k: nat :| FirstAcceptable(dict, o, sequence, prefix, k) {
      TrialsRepeat(sequence, k, prefix);
      assert Acceptable(dict, o, Trial(sequence, Turn(k), prefix));
    }
    if k :| 1 <= k <= UINT32_SPAN && Acceptable(dict, o, Trial(sequence, k, prefix)) {
      var first := LeastAcceptable(dict, o, sequence, prefix, k);
    }
  }

  lemma LeastAcceptable<T>(dict: map<string, T>, o: Option<T>, sequence: int, prefix: string, k: nat)
    returns (first: nat)
    requires 1 <= k && Acceptable(dict, o, Trial(sequence, k, prefix))
    ensures first <= k && FirstAcceptable(dict, o, sequence, prefix, first)
  {
    first := 1;
    while !Acceptable(dict, o, Trial(sequence, first, prefix))
      invariant 1 <= first <= k
      invariant forall j :: 1 <= j < first ==> !Acceptable(dict, o, Trial(sequence, j, prefix))
      decreases k - first
    {
      first := first + 1;
    }
  }

  ghost function TrialNames(sequence: int, n: nat, prefix: string): set<string> {
    if n == 0 then {} else TrialNames(sequence, n - 1, prefix) + {Trial(sequence, n, prefix)}
  }

  lemma {:induction false} TrialsAreDistinct(sequence: int, n: nat, prefix: string)
    requires n <= UINT32_SPAN && |prefix| <= SHORT_PREFIX
    ensures |TrialNames(sequence, n, prefix)| == n
  {
    if n > 0 {
      hide Trial, MakeName, FullName;
      TrialsAreDistinct(sequence, n - 1, prefix);
      NextTrialIsNew(sequence, n, prefix);
    }
  }

  lemma NextTrialIsNew(sequence: int, n: nat, prefix: string)
    requires 0 < n <= UINT32_SPAN && |prefix| <= SHORT_PREFIX
    ensures Trial(sequence, n, prefix) !in TrialNames(sequence, n - 1, prefix)
  {
    hide Trial, MakeName, FullName, TrialNames;
    if Trial(sequence, n, prefix) in TrialNames(sequence, n - 1, prefix) {
      var k := CountOf(sequence, n - 1, prefix, Trial(sequence, n, prefix));
      TrialsDiffer(sequence, k, n, prefix);
    }
  }

  lemma {:induction false} CountOf(sequence: int, n: nat, prefix: string, name: string) returns (k: nat)
    requires name in TrialNames(sequence, n, prefix)
    ensures 1 <= k <= n && Trial(sequence, k, prefix) == name
  {
    hide Trial, MakeName, FullName;
    if name == Trial(sequence, n, prefix) { k := n; } else { k := CountOf(sequence, n - 1, prefix, name); }
  }

  lemma TrialsDiffer(sequence: int, j: int, k: int, prefix: string)
    requires j < k < j + UINT32_SPAN && |prefix| <= SHORT_PREFIX
    ensures Trial(sequence, j, prefix) != Trial(sequence, k, prefix)
  {
    hide MakeName, FullName;
    var a, b := AsId(sequence + j), AsId(sequence + k);
    ShortNamesFit(a, prefix);
    ShortNamesFit(b, prefix);
    NamesDiffer(a, b, prefix);
    DistinctIds(sequence + j, sequence + k);
  }

  lemma DistinctIds(x: int, y: int)
    requires x < y < x + UINT32_SPAN
    ensures AsId(x) != AsId(y)
  {
  }

  /** With a short prefix the search ends whatever the dictionary holds, at the latest one
      trial past its size: more different names than entries. */
  lemma FreshNameExists<T>(dict: map<string, T>, o: Option<T>, sequence: Sequence, prefix: string)
    requires |prefix| <= SHORT_PREFIX && |dict| < UINT32_SPAN
    ensures exists k :: FirstAcceptable(dict, o, sequence, prefix, k) && k <= |dict| + 1
  {
    hide Trial, MakeName, FullName;
    var names := TrialNames(sequence, |dict| + 1, prefix);
    TrialsAreDistinct(sequence, |dict| + 1, prefix);
    assert |dict.Keys| == |dict|;
    if names <= dict.Keys { SubsetCardinality(names, dict.Keys); }
    var name :| name in names && name !in dict.Keys;
    var k := CountOf(sequence, |dict| + 1, prefix, name);
    var first := LeastAcceptable(dict, o, sequence, prefix, k);
  }

  lemma {:induction false} SubsetCardinality<T>(a: set<T>, b: set<T>)
    requires a <= b
    ensures |a| <= |b|
  {
    if a != {} {
      var x :| x in a;
      SubsetCardinality(a - {x}, b - {x});
    }
  }

  /** With a long one it ends exactly when the one name it tries is acceptable. */
  lemma LongPrefixEnds<T>(dict: map<string, T>, o: Option<T>, sequence: Sequence, prefix: string)
    requires |prefix| >= 29
    ensures (exists k :: FirstAcceptable(dict, o, sequence, prefix, k))
            <==> Acceptable(dict, o, (prefix + "_Untitled_")[..BUFFER - 1])
  {
    hide MakeName;
    var only := (prefix + "_Untitled_")[..BUFFER - 1];
    forall k ensures Trial(sequence, k, prefix) == only { LongNamesCollide(AsId(sequence + k), 0, prefix); }
    if Acceptable(dict, o, only) { assert FirstAcceptable(dict, o, sequence, prefix, 1); }
  }

  // ---- renaming in a dictionary ----

  /** The dictionary after an object called `oldname` asks for `newname`. */
  function Renamed<T>(dict: map<string, T>, o: T, oldname: string, newname: string): map<string, T> {
    if oldname == newname || newname in dict then dict else dict[newname := o] - {oldname}
  }

  /** The name the object has then. */
  function NameAfter<T>(dict: map<string, T>, oldname: string, newname: string): string {
    if newname in dict then oldname else newname
  }

  /** No entry but the old name's changes, and a name in use is never captured. */
  lemma RenameNeverCaptures<T>(dict: map<string, T>, o: T, oldname: string, newname: string, n: string)
    requires n in dict && n != oldname
    ensures n in Renamed(dict, o, oldname, newname) && Renamed(dict, o, oldname, newname)[n] == dict[n]
  {
  }

  /** Another object loses its entry exactly when the rename goes ahead and that object is
      the one the old name stands for. */
  lemma RenameEvicts<T>(dict: map<string, T>, o: T, oldname: string, newname: string, n: string)
    requires n in dict && dict[n] != o
    ensures (n !in Renamed(dict, o, oldname, newname) || Renamed(dict, o, oldname, newname)[n] != dict[n])
            <==> n == oldname && newname !in dict
  {
  }

  // ---- one dictionary over a run ----

  /** A dictionary and the names of the objects that live under its owner. */
  datatype Scope<!T> = Scope(dict: map<string, T>, names: map<T, string>)

  datatype Event<T> =
    | Named(o: T, name: string)
    | Unnamed(o: T, generated: string)
    | Rename(o: T, name: string)
    | Gone(o: T)

  predicate Possible<T>(s: Scope<T>, e: Event<T>) {
    match e
    case Named(o, _) => o !in s.names
    case Unnamed(o, generated) => o !in s.names && generated != ""
    case Rename(o, _) => o in s.names
    case Gone(o) => o in s.names
  }

  function Step<T>(s: Scope<T>, e: Event<T>): Scope<T>
    requires Possible(s, e)
  {
    match e
    case Named(o, name) => Scope(s.dict[name := o], s.names[o := name])
    case Unnamed(o, generated) =>
      Scope(Renamed(s.dict, o, "", generated), s.names[o := NameAfter(s.dict, "", generated)])
    case Rename(o, name) =>
      Scope(Renamed(s.dict, o, s.names[o], name), s.names[o := NameAfter(s.dict, s.names[o], name)])
    case Gone(o) => Scope(s.dict - {s.names[o]}, s.names - {o})
  }

  /** Every entry is an object by its own name. */
  ghost predicate Faithful<T>(s: Scope<T>) {
    forall n :: n in s.dict ==> s.dict[n] in s.names && s.names[s.dict[n]] == n
  }

  /** Every object is entered under its name. */
  ghost predicate Registered<T>(s: Scope<T>) {
    forall o :: o in s.names ==> s.names[o] in s.dict && s.dict[s.names[o]] == o
  }

  lemma StepKeepsFaithful<T>(s: Scope<T>, e: Event<T>)
    requires Faithful(s) && Possible(s, e)
    ensures Faithful(Step(s, e))
  {
  }

  /** Destruction takes away the entry under the object's name, and no other, even one that has
      come to stand for another object. */
  lemma GoneErases<T>(s: Scope<T>, o: T, n: string)
    requires o in s.names
    ensures var after := Step(s, Gone(o));
            && (n in after.dict <==> n in s.dict && n != s.names[o])
            && (n in after.dict ==> after.dict[n] == s.dict[n])
            && after.names.Keys == s.names.Keys - {o}
            && forall x :: x in after.names ==> after.names[x] == s.names[x]
  {
  }

  /** An object comes into being under a name in use, or without one while another object's
      name is empty. */
  predicate Collides<T>(s: Scope<T>, e: Event<T>) {
    match e
    case Named(_, name) => name in s.dict
    case Unnamed(_, generated) => generated in s.dict || "" in s.dict
    case _ => false
  }

  /** Every object stays in the dictionary exactly when no object is created that way:
      renaming and destruction never drop one. */
  lemma StepKeepsRegistered<T>(s: Scope<T>, e: Event<T>)
    requires Faithful(s) && Registered(s) && Possible(s, e)
    ensures Registered(Step(s, e)) <==> !Collides(s, e)
  {
    var t := Step(s, e);
    if Collides(s, e) {
      match e {
        case Named(o, name) =>
          var other := s.dict[name];
          assert other != o && t.names[other] == name && t.dict[name] == o;
        case Unnamed(o, generated) =>
          if generated in s.dict {
            assert t.names[o] == "" && ("" in t.dict ==> t.dict[""] in s.names);
          } else {
            var other := s.dict[""];
            assert t.names[other] == "" && "" !in t.dict;
          }
      }
    } else {
      forall x | x in t.names ensures t.names[x] in t.dict && t.dict[t.names[x]] == x {
      }
    }
  }

  ghost predicate RunOk<T>(s: Scope<T>, events: seq<Event<T>>)
    decreases events
  {
    events != [] ==> Possible(s, events[0]) && RunOk(Step(s, events[0]), events[1..])
  }

  ghost function Run<T>(s: Scope<T>, events: seq<Event<T>>): Scope<T>
    requires RunOk(s, events)
    decreases events
  {
    if events == [] then s else Run(Step(s, events[0]), events[1..])
  }

  ghost predicate NeverCollides<T>(s: Scope<T>, events: seq<Event<T>>)
    requires RunOk(s, events)
    decreases events
  {
    events != [] ==> !Collides(s, events[0]) && NeverCollides(Step(s, events[0]), events[1..])
  }

  /** Over every run an entry is an object by its own name; if no creation collides, every
      object is entered too, so no two have one name. */
  lemma {:induction false} NamesOverRuns<T>(s: Scope<T>, events: seq<Event<T>>)
    requires Faithful(s) && RunOk(s, events)
    ensures Faithful(Run(s, events))
    ensures Registered(s) && NeverCollides(s, events) ==>
              && Registered(Run(s, events))
              && (forall x, y :: x in Run(s, events).names && y in Run(s, events).names && x != y
                    ==> Run(s, events).names[x] != Run(s, events).names[y])
    decreases events
  {
    if events != [] {
      hide Faithful, Registered, Collides, Step;
      StepKeepsFaithful(s, events[0]);
      if Registered(s) { StepKeepsRegistered(s, events[0]); }
      NamesOverRuns(Step(s, events[0]), events[1..]);
    }
  }

  // ---- the objects ----

  /** The counter some increments later. */
  function After(sequence: Sequence, tries: nat): Sequence { Wrapped(sequence + tries) }

  lemma AfterOneMore(sequence: Sequence, tries: nat)
    ensures After(After(sequence, tries), 1) == After(sequence, tries + 1)
  {
    hide Wrapped;
    WrapAdd(sequence + tries, 1);
  }

  lemma SameId(sequence: Sequence, tries: nat)
    ensures AsId(After(sequence, tries)) == AsId(sequence + tries)
  {
    hide Wrapped;
    WrapAdd(sequence + tries, 0);
  }

  lemma Counted(sequence: Sequence, tries: nat, prefix: string)
    ensures MakeName(AsId(After(sequence, tries)), prefix) == Trial(sequence, tries, prefix)
  {
    hide MakeName, FullName, AsId, After;
    SameId(sequence, tries);
  }

  /** The dictionary of top-level objects and the counter for generated names. */
  class Globals {
    var objects: map<string, NamedObject>
    var sequence: Sequence

    constructor ()
      ensures objects == map[] && sequence == 1
    {
      objects := map[];
      sequence := 1;
    }

    /** The search for an unused name among the object's own children, or at top level. */
    method NextName(o: NamedObject?, prefix: string) returns (name: string, ghost tries: nat)
      requires exists k: nat :: FirstAcceptable(Locals(o), Self(o), sequence, prefix, k)
      modifies this`sequence
      ensures FirstAcceptable(Locals(o), Self(o), old(sequence), prefix, tries)
      ensures name == Trial(old(sequence), tries, prefix)
      ensures sequence == After(old(sequence), tries)
      ensures name in Locals(o) ==> o != null && Locals(o)[name] == o
      ensures forall j :: 1 <= j < tries ==>
                var taken := Trial(old(sequence), j, prefix);
                taken in Locals(o) && (o != null ==> Locals(o)[taken] != o)
    {
      TakenByOther(Locals(o), Self(o));
      hide Trial, After, Acceptable, AsId, MakeName, FullName;
      ghost var k: nat :| FirstAcceptable(Locals(o), Self(o), sequence, prefix, k);
      var dict := if o == null then objects else o.children;
      sequence := After(sequence, 1);
      name := MakeName(AsId(sequence), prefix);
      tries := 1;
      Counted(old(sequence), 1, prefix);
      while !Acceptable(dict, Self(o), name)
        invariant 1 <= tries <= k
        invariant sequence == After(old(sequence), tries)
        invariant name == Trial(old(sequence), tries, prefix)
        invariant forall j :: 1 <= j < tries ==> !Acceptable(dict, Self(o), Trial(old(sequence), j, prefix))
        decreases k - tries
      {
        AfterOneMore(old(sequence), tries);
        Counted(old(sequence), tries + 1, prefix);
        sequence := After(sequence, 1);
        name := MakeName(AsId(sequence), prefix);
        tries := tries + 1;
      }
    }

    function Locals(o: NamedObject?): map<string, NamedObject>
      reads this, o
    {
      if o == null then objects else o.children
    }
  }

  /** A name is acceptable unless it is entered for another object. */
  lemma TakenByOther<T>(dict: map<string, T>, o: Option<T>)
    ensures forall name :: Acceptable(dict, o, name) <==> name !in dict || (o.Some? && dict[name] == o.value)
  {
  }

  function Self(o: NamedObject?): Option<NamedObject> { if o == null then None else Some(o) }

  /** An object without children takes the first name it tries. */
  lemma FirstWhenEmpty<T>(dict: map<string, T>, o: Option<T>, sequence: Sequence)
    requires dict == map[]
    ensures FirstAcceptable(dict, o, sequence, "", 1)
    ensures forall k: nat :: FirstAcceptable(dict, o, sequence, "", k) ==> k == 1
    ensures Trial(sequence, 1, "") != ""
  {
  }

  class NamedObject {
    const globals: Globals
    const parent: NamedObject?
    var name: string
    var children: map<string, NamedObject>

    function Siblings(): map<string, NamedObject>
      reads this, globals, parent
    {
      if parent == null then globals.objects else parent.children
    }

    ghost function Owner(): NamedObject { if parent == null then this else parent }

    /** An object created with a name takes that entry, whoever had it. */
    constructor Named(globals: Globals, parent: NamedObject?, name: string)
      modifies if parent == null then {globals} else {parent}
      ensures this.globals == globals && this.parent == parent
      ensures this.name == name && children == map[]
      ensures parent == null ==>
                globals.objects == old(globals.objects)[name := this] && globals.sequence == old(globals.sequence)
      ensures parent != null ==>
                parent.children == old(parent.children)[name := this] && parent.name == old(parent.name)
    {
      this.globals := globals;
      this.parent := parent;
      this.name := name;
      children := map[];
      new;
      if parent == null {
        globals.objects := globals.objects[name := this];
      } else {
        parent.children := parent.children[name := this];
      }
    }

    /** An object created without a name gets the next generated one if no sibling has it,
        and otherwise stays nameless and unregistered: the search looked among its own
        children, of which there are none. */
    constructor (globals: Globals, parent: NamedObject?)
      modifies globals, if parent == null then {} else {parent}
      ensures this.globals == globals && this.parent == parent && children == map[]
      ensures globals.sequence == After(old(globals.sequence), 1)
      ensures var generated := Trial(old(globals.sequence), 1, "");
              var siblings := if parent == null then old(globals.objects) else old(parent.children);
              && generated != ""
              && name == NameAfter(siblings, "", generated)
              && Siblings() == Renamed(siblings, this, "", generated)
      ensures parent != null ==> globals.objects == old(globals.objects) && parent.name == old(parent.name)
    {
      this.globals := globals;
      this.parent := parent;
      name := "";
      children := map[];
      new;
      FirstWhenEmpty(children, Some(this), globals.sequence);
      assert FirstAcceptable(globals.Locals(this), Self(this), globals.sequence, "", 1);
      var generated, tries := globals.NextName(this, "");
      SetName(generated);
    }

    /** Claims `newname` among the siblings in place of `oldname`, unless it is in use. */
    method ChangeName(oldname: string, newname: string) returns (ok: bool)
      modifies globals`objects, Owner()`children
      ensures ok <==> newname == oldname || newname !in old(Siblings())
      ensures Siblings() == Renamed(old(Siblings()), this, oldname, newname)
      ensures if parent == null then children == old(children) else globals.objects == old(globals.objects)
    {
      if oldname == newname {
        return true;
      }
      if newname in Siblings() {
        return false;
      }
      SetSiblings(Siblings()[newname := this]);
      if oldname in Siblings() {
        SetSiblings(Siblings() - {oldname});
      }
      return true;
    }

    method SetSiblings(dict: map<string, NamedObject>)
      modifies globals`objects, Owner()`children
      ensures Siblings() == dict
      ensures if parent == null then children == old(children) else globals.objects == old(globals.objects)
    {
      if parent == null { globals.objects := dict; } else { parent.children := dict; }
    }

    /** Asks for a name. Either way every entry of the dictionary is still an object by its
        own name. */
    method SetName(newname: string)
      modifies this`name, globals`objects, Owner()`children
      ensures name == NameAfter(old(Siblings()), old(name), newname)
      ensures Siblings() == Renamed(old(Siblings()), this, old(name), newname)
      ensures if parent == null then children == old(children) else globals.objects == old(globals.objects)
      ensures old(EntriesMatch(Siblings())) ==> EntriesMatch(Siblings())
    {
      var ok := ChangeName(name, newname);
      if ok {
        name := newname;
      }
    }

    /** Destruction takes the entry away; at top level it has to be this object's. */
    method Forget()
      requires parent == null && name in globals.objects ==> globals.objects[name] == this
      modifies globals`objects, Owner()`children
      ensures Siblings() == old(Siblings()) - {name}
      ensures if parent == null then children == old(children) else globals.objects == old(globals.objects)
    {
      SetSiblings(Siblings() - {name});
    }
  }

  ghost predicate EntriesMatch(dict: map<string, NamedObject>)
    reads dict.Values
  {
    forall n :: n in dict ==> dict[n].name == n
  }
}
