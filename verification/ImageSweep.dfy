/** The sweep of the downloaded-image cache: an age pass over the directory listing, then
    oldest-first removal of young files while the filesystem is under its floor. */
module ImageSweep {
  import opened Common

  /** One directory entry; an attribute that cannot be read is `None`. */
  datatype Entry = Entry(name: string, regular: bool, mtime: Option<int>, size: Option<Word>, removable: bool)

  datatype Policy = Policy(
    liveNames: set<string>, now: int, maxAge: int, minFreeBytes: Word, minFreeRatio: real)

  /** Bytes available and in all on the filesystem. */
  datatype Space = Space(avail: Word, total: Word)

  datatype Unused = Unused(name: string, mtime: int, bytes: Word, removable: bool)

  datatype Counters = Counters(removedAged: nat, removedPressure: nat, keptLive: nat, keptYoung: nat)

  const UINT64_MAX: Word := UINT64_SPAN - 1

  function SaturatingAdd(a: Word, b: Word): (sum: Word)
    ensures sum == if a + b > UINT64_MAX then UINT64_MAX else a + b
  {
    if a > UINT64_MAX - b then UINT64_MAX else a + b
  }

  predicate SpaceIsTight(avail: Word, total: Word, policy: Policy) {
    || (policy.minFreeBytes > 0 && avail < policy.minFreeBytes)
    || (policy.minFreeRatio > 0.0 && total > 0 && avail as real / total as real < policy.minFreeRatio)
  }

  lemma QuotientMonotone(a: real, b: real, c: real)
    requires a <= b && c > 0.0
    ensures a / c <= b / c
  {
    var p, q := a / c, b / c;
    assert p * c == a && q * c == b;
    assert (q - p) * c >= 0.0;
  }

  /** More available space is never tighter. */
  lemma TightAntitone(a: Word, b: Word, total: Word, policy: Policy)
    requires a <= b && SpaceIsTight(b, total, policy)
    ensures SpaceIsTight(a, total, policy)
  {
    if total > 0 { QuotientMonotone(a as real, b as real, total as real); }
  }

  /** There is pressure unless both floors that are set are met. */
  lemma TightExactly(avail: Word, total: Word, policy: Policy)
    ensures !SpaceIsTight(avail, total, policy) <==>
              && avail >= policy.minFreeBytes
              && (policy.minFreeRatio > 0.0 && total > 0 ==> avail as real >= policy.minFreeRatio * total as real)
  {
    if total > 0 { QuotientFloor(avail as real, total as real, policy.minFreeRatio); }
  }

  lemma QuotientFloor(a: real, b: real, r: real)
    requires b > 0.0
    ensures a / b < r <==> a < r * b
  {
    var q := a / b;
    assert q * b == a;
    assert (r - q) * b == r * b - a;
    if q < r { assert (r - q) * b > 0.0; } else { assert (q - r) * b >= 0.0; }
  }

  // ---- which files are managed ----

  function Lower(c: char): char { if 'A' <= c <= 'Z' then (c - 'A') + 'a' else c }

  function LowerAll(s: string): string { seq(|s|, i requires 0 <= i < |s| => Lower(s[i])) }

  /** The position after the last dot, or zero. */
  function AfterDot(name: string): (n: nat)
    ensures n <= |name|
  {
    if name == [] then 0 else if name[|name| - 1] == '.' then |name| else AfterDot(name[..|name| - 1])
  }

  predicate ImageExtension(name: string) {
    var start := AfterDot(name);
    start > 1 && start < |name| &&
    LowerAll(name[start..]) in {"png", "jpg", "jpeg", "gif", "bmp", "tga", "ppm", "pgm", "pnm"}
  }

  predicate IsManaged(name: string) { name != "" && name[0] != '.' && ImageExtension(name) }

  predicate SameIgnoringCase(a: string, b: string) {
    |a| == |b| && forall i :: 0 <= i < |a| ==> a[i] == b[i] || ('A' <= a[i] <= 'Z' && a[i] as int + 32 == b[i] as int)
  }

  /** A name of a stem and one of nine extensions, in either case. */
  ghost predicate ImageName(name: string, stem: string, ext: string) {
    name == stem + "." + ext && stem != "" && stem[0] != '.' && '.' !in ext && KnownExtension(ext)
  }

  ghost predicate KnownExtension(ext: string) {
    exists known :: known in {"png", "jpg", "jpeg", "gif", "bmp", "tga", "ppm", "pgm", "pnm"}
                    && SameIgnoringCase(ext, known)
  }

  lemma KnownExactly(ext: string)
    ensures KnownExtension(ext) <==>
              LowerAll(ext) in {"png", "jpg", "jpeg", "gif", "bmp", "tga", "ppm", "pgm", "pnm"}
  {
    hide LowerAll, SameIgnoringCase;
    forall known | known in {"png", "jpg", "jpeg", "gif", "bmp", "tga", "ppm", "pgm", "pnm"}
      ensures LowerAll(ext) == known <==> SameIgnoringCase(ext, known)
    {
      LowerIs(ext, known);
    }
    if LowerAll(ext) in {"png", "jpg", "jpeg", "gif", "bmp", "tga", "ppm", "pgm", "pnm"} {
      assert SameIgnoringCase(ext, LowerAll(ext));
    }
  }

  lemma {:induction false} DotSplits(stem: string, ext: string)
    requires '.' !in ext
    ensures AfterDot(stem + "." + ext) == |stem| + 1
  {
    var name := stem + "." + ext;
    if ext == "" {
      assert name[|name| - 1] == '.';
    } else {
      assert name[|name| - 1] == ext[|ext| - 1] && name[..|name| - 1] == stem + "." + ext[..|ext| - 1];
      DotSplits(stem, ext[..|ext| - 1]);
    }
  }

  lemma {:induction false} DotFound(name: string)
    ensures var n := AfterDot(name);
            && (n > 0 ==> name[n - 1] == '.')
            && forall i :: n <= i < |name| ==> name[i] != '.'
  {
    if name != [] && name[|name| - 1] != '.' { DotFound(name[..|name| - 1]); }
  }

  lemma LowerIs(a: string, b: string)
    requires forall i :: 0 <= i < |b| ==> 'a' <= b[i] <= 'z'
    ensures LowerAll(a) == b <==> SameIgnoringCase(a, b)
  {
    assert |LowerAll(a)| == |a|;
    forall i | 0 <= i < |a| && i < |b|
      ensures LowerAll(a)[i] == b[i] <==> a[i] == b[i] || ('A' <= a[i] <= 'Z' && a[i] as int + 32 == b[i] as int)
    {
      assert LowerAll(a)[i] == Lower(a[i]);
    }
  }

  /** The managed names are exactly those. */
  lemma ManagedExactly(name: string)
    ensures IsManaged(name) <==> exists stem, ext :: ImageName(name, stem, ext)
  {
    hide LowerAll, KnownExtension;
    DotFound(name);
    var n := AfterDot(name);
    KnownExactly(name[n..]);
    if IsManaged(name) {
      assert name == name[..n - 1] + "." + name[n..];
      assert name[0] == name[..n - 1][0];
      assert ImageName(name, name[..n - 1], name[n..]);
    }
    if stem, ext :| ImageName(name, stem, ext) {
      DotSplits(stem, ext);
      assert name[|stem| + 1..] == ext && name[0] == stem[0];
      NoEmptyExtension(ext);
    }
  }

  lemma NoEmptyExtension(ext: string)
    requires KnownExtension(ext)
    ensures ext != ""
  {
  }

  // ---- the classes of the age pass ----

  datatype Class = Foreign | Live | Unreadable | Aged | Young

  function Classify(e: Entry, policy: Policy): Class {
    if !e.regular || !IsManaged(e.name) then Foreign
    else if e.name in policy.liveNames then Live
    else match e.mtime
      case None => Unreadable
      case Some(mtime) => if mtime <= policy.now && policy.now - mtime >= policy.maxAge then Aged else Young
  }

  function SizeOf(e: Entry): Word { match e.size case Some(n) => n case None => 0 }

  function AgedRemoved(listing: seq<Entry>, policy: Policy): seq<Unused> {
    if listing == [] then []
    else
      var e := listing[|listing| - 1];
      var before := AgedRemoved(listing[..|listing| - 1], policy);
      if Classify(e, policy) == Aged && e.removable
      then before + [Unused(e.name, e.mtime.value, SizeOf(e), true)] else before
  }

  function YoungFiles(listing: seq<Entry>, policy: Policy): seq<Unused> {
    if listing == [] then []
    else
      var e := listing[|listing| - 1];
      var before := YoungFiles(listing[..|listing| - 1], policy);
      if Classify(e, policy) == Young then before + [Unused(e.name, e.mtime.value, SizeOf(e), e.removable)] else before
  }

  function CountClass(listing: seq<Entry>, policy: Policy, class_: Class): nat {
    if listing == [] then 0
    else CountClass(listing[..|listing| - 1], policy, class_)
         + (if Classify(listing[|listing| - 1], policy) == class_ then 1 else 0)
  }

  // ---- the order of the pressure pass ----

  predicate LexLeq(a: string, b: string) {
    a == [] || (b != [] && (a[0] < b[0] || (a[0] == b[0] && LexLeq(a[1..], b[1..]))))
  }

  lemma {:induction false} LexTotal(a: string, b: string)
    ensures LexLeq(a, b) || LexLeq(b, a)
    ensures LexLeq(a, b) && LexLeq(b, a) ==> a == b
  {
    if a != [] && b != [] {
      LexTotal(a[1..], b[1..]);
      assert a == [a[0]] + a[1..] && b == [b[0]] + b[1..];
    }
  }

  lemma {:induction false} LexTransitive(a: string, b: string, c: string)
    requires LexLeq(a, b) && LexLeq(b, c)
    ensures LexLeq(a, c)
  {
    if a != [] && b != [] && c != [] && a[0] == b[0] == c[0] { LexTransitive(a[1..], b[1..], c[1..]); }
  }

  /** One name comes before another if it begins it, or has the smaller character where they
      first differ. */
  lemma {:induction false} LexExactly(a: string, b: string)
    ensures LexLeq(a, b) <==> a <= b || exists i :: 0 <= i < |a| && i < |b| && a[..i] == b[..i] && a[i] < b[i]
  {
    if a != [] && b != [] {
      if a[0] == b[0] {
        LexExactly(a[1..], b[1..]);
        assert a[1..] <= b[1..] <==> a <= b;
        if i :| 0 <= i < |a| && i < |b| && a[..i] == b[..i] && a[i] < b[i] {
          assert i > 0 && a[1..][..i - 1] == a[..i][1..] && b[1..][..i - 1] == b[..i][1..];
        }
        if i :| 0 <= i < |a| - 1 && i < |b| - 1 && a[1..][..i] == b[1..][..i] && a[1..][i] < b[1..][i] {
          assert a[..i + 1] == [a[0]] + a[1..][..i] && b[..i + 1] == [b[0]] + b[1..][..i];
          assert a[i + 1] < b[i + 1];
        }
      } else {
        assert a[..0] == b[..0];
        assert forall i :: 0 < i < |a| && i < |b| ==> a[..i][0] == a[0] && b[..i][0] == b[0];
      }
    }
  }

  /** Oldest first, ties by name. */
  predicate Before(a: Unused, b: Unused) {
    a.mtime < b.mtime || (a.mtime == b.mtime && LexLeq(a.name, b.name))
  }

  predicate Ordered(files: seq<Unused>) {
    forall i, k :: 0 <= i < k < |files| ==> Before(files[i], files[k])
  }

  function Insert(file: Unused, files: seq<Unused>): seq<Unused> {
    if files == [] || Before(file, files[0]) then [file] + files else [files[0]] + Insert(file, files[1..])
  }

  function Sort(files: seq<Unused>): seq<Unused> {
    if files == [] then [] else Insert(files[0], Sort(files[1..]))
  }

  lemma PrependOrdered(f: Unused, files: seq<Unused>)
    requires Ordered(files) && forall g :: g in files ==> Before(f, g)
    ensures Ordered([f] + files)
  {
  }

  lemma {:induction false} InsertOrdered(file: Unused, files: seq<Unused>)
    requires Ordered(files)
    ensures Ordered(Insert(file, files)) && multiset(Insert(file, files)) == multiset(files) + multiset{file}
  {
    if files != [] {
      assert files == [files[0]] + files[1..];
      if Before(file, files[0]) {
        forall g | g in files ensures Before(file, g) {
          if g != files[0] { BeforeTransitive(file, files[0], g); }
        }
        PrependOrdered(file, files);
      } else {
        LexTotal(file.name, files[0].name);
        assert Before(files[0], file);
        InsertOrdered(file, files[1..]);
        InsertElements(file, files[1..]);
        hide Before, Insert;
        PrependOrdered(files[0], Insert(file, files[1..]));
        InsertLater(file, files);
      }
    }
  }

  lemma InsertLater(file: Unused, files: seq<Unused>)
    requires files != [] && !Before(file, files[0])
    ensures Insert(file, files) == [files[0]] + Insert(file, files[1..])
  {
  }

  lemma {:induction false} InsertElements(file: Unused, files: seq<Unused>)
    ensures forall f :: f in Insert(file, files) ==> f == file || f in files
  {
    if files != [] && !Before(file, files[0]) { InsertElements(file, files[1..]); }
  }

  lemma BeforeTransitive(a: Unused, b: Unused, c: Unused)
    requires Before(a, b) && Before(b, c)
    ensures Before(a, c)
  {
    if a.mtime == b.mtime == c.mtime { LexTransitive(a.name, b.name, c.name); }
  }

  /** Sorting gives the files in order, the oldest first and those of one time by name, each as
      often as before. */
  lemma SortExactly(files: seq<Unused>)
    ensures multiset(Sort(files)) == multiset(files)
    ensures forall i, k :: 0 <= i < k < |Sort(files)| ==>
              var a, b := Sort(files)[i], Sort(files)[k];
              a.mtime < b.mtime || (a.mtime == b.mtime && LexLeq(a.name, b.name))
  {
    SortIs(files);
    assert forall i, k :: 0 <= i < k < |Sort(files)| ==> Before(Sort(files)[i], Sort(files)[k]);
  }

  lemma {:induction false} SortIs(files: seq<Unused>)
    ensures Ordered(Sort(files)) && multiset(Sort(files)) == multiset(files)
  {
    if files != [] {
      SortIs(files[1..]);
      InsertOrdered(files[0], Sort(files[1..]));
      assert files == [files[0]] + files[1..];
    }
  }

  lemma HeadsAgree(a: seq<Unused>, b: seq<Unused>)
    requires a != [] && b != [] && Ordered(a) && Ordered(b) && a[0] in b && b[0] in a
    requires forall i, k :: 0 <= i < k < |a| ==> a[i].name != a[k].name
    ensures a[0] == b[0]
  {
    var i :| 0 <= i < |b| && b[i] == a[0];
    var k :| 0 <= k < |a| && a[k] == b[0];
    if i > 0 && k > 0 {
      assert Before(a[0], a[k]) && Before(b[0], b[i]);
      LexTotal(a[0].name, b[0].name);
    }
  }

  lemma TailOf(files: seq<Unused>)
    requires files != [] && Ordered(files)
    ensures multiset(files[1..]) == multiset(files) - multiset{files[0]} && Ordered(files[1..])
  {
    hide Before;
    assert files == [files[0]] + files[1..];
  }

  /** Two orderings of the same files agree, so it does not matter how they are sorted. */
  lemma {:induction false} OrderUnique(a: seq<Unused>, b: seq<Unused>)
    requires Ordered(a) && Ordered(b) && multiset(a) == multiset(b)
    requires forall i, k :: 0 <= i < k < |a| ==> a[i].name != a[k].name
    ensures a == b
    decreases |a|
  {
    hide Ordered;
    assert |multiset(a)| == |a| && |multiset(b)| == |b|;
    if a != [] {
      assert a[0] in multiset(b) && b[0] in multiset(a);
      HeadsAgree(a, b);
      TailOf(a);
      TailOf(b);
      OrderUnique(a[1..], b[1..]);
    }
  }

  // ---- the pressure pass ----

  /** Available space once the removable files among `files` are gone. */
  function Reclaimed(avail: Word, files: seq<Unused>): Word {
    if files == [] then avail
    else
      var before := Reclaimed(avail, files[..|files| - 1]);
      var f := files[|files| - 1];
      if f.removable then SaturatingAdd(before, f.bytes) else before
  }

  lemma {:induction false} ReclaimedGrows(avail: Word, files: seq<Unused>, i: nat, k: nat)
    requires i <= k <= |files|
    ensures Reclaimed(avail, files[..i]) <= Reclaimed(avail, files[..k])
    decreases k
  {
    if i < k {
      ReclaimedGrows(avail, files, i, k - 1);
      assert files[..k][..k - 1] == files[..k - 1];
    }
  }

  function Bytes(files: seq<Unused>): nat {
    if files == [] then 0
    else Bytes(files[..|files| - 1]) + (if files[|files| - 1].removable then files[|files| - 1].bytes else 0)
  }

  /** Saturation is harmless: the running sum is the true total, capped. */
  lemma {:induction false} ReclaimedIsTotal(avail: Word, files: seq<Unused>)
    ensures Reclaimed(avail, files) == if avail + Bytes(files) > UINT64_MAX then UINT64_MAX else avail + Bytes(files)
  {
    if files != [] { ReclaimedIsTotal(avail, files[..|files| - 1]); }
  }

  /** `k` is how many of the ordered files are attempted: the shortest prefix whose
      reclaimed bytes clear the floor, or all of them when none does. */
  predicate ShortestClearing(space: Space, policy: Policy, files: seq<Unused>, k: nat) {
    && k <= |files|
    && (forall i :: 0 <= i < k ==> SpaceIsTight(Reclaimed(space.avail, files[..i]), space.total, policy))
    && (k < |files| ==> !SpaceIsTight(Reclaimed(space.avail, files[..k]), space.total, policy))
  }

  /** The prefix lengths under pressure are exactly those below `k`: no shorter prefix
      clears the floor, and every longer one would have cleared it too. */
  lemma ShortestIsExact(space: Space, policy: Policy, files: seq<Unused>, k: nat, i: nat)
    requires ShortestClearing(space, policy, files, k) && i <= |files| && k < |files|
    ensures SpaceIsTight(Reclaimed(space.avail, files[..i]), space.total, policy) <==> i < k
  {
    if i >= k && SpaceIsTight(Reclaimed(space.avail, files[..i]), space.total, policy) {
      ReclaimedGrows(space.avail, files, k, i);
      TightAntitone(Reclaimed(space.avail, files[..k]), Reclaimed(space.avail, files[..i]), space.total, policy);
    }
  }

  function Removable(files: seq<Unused>): (removable: seq<Unused>)
    ensures |removable| <= |files|
  {
    if files == [] then []
    else
      var f := files[|files| - 1];
      Removable(files[..|files| - 1]) + (if f.removable then [f] else [])
  }

  lemma {:induction false} RemovableIn(files: seq<Unused>)
    ensures forall f :: f in Removable(files) <==> f in files && f.removable
  {
    if files != [] {
      RemovableIn(files[..|files| - 1]);
      assert files == files[..|files| - 1] + [files[|files| - 1]];
    }
  }


  // ---- the sweep ----

  /** The age pass: live files are kept, aged ones removed, young ones collected. */
  method AgePass(listing: seq<Entry>, policy: Policy, space: Option<Space>)
    returns (removed: seq<Unused>, young: seq<Unused>, keptLive: nat, avail: Word)
    ensures removed == AgedRemoved(listing, policy) && young == YoungFiles(listing, policy)
    ensures keptLive == CountClass(listing, policy, Live)
    ensures avail == if space.Some? then Reclaimed(space.value.avail, removed) else 0
  {
    removed, young, keptLive := [], [], 0;
    avail := if space.Some? then space.value.avail else 0;
    for i := 0 to |listing|
      invariant removed == AgedRemoved(listing[..i], policy) && young == YoungFiles(listing[..i], policy)
      invariant keptLive == CountClass(listing[..i], policy, Live)
      invariant avail == if space.Some? then Reclaimed(space.value.avail, removed) else 0
    {
      var e := listing[i];
      assert listing[..i + 1][..i] == listing[..i];
      if !e.regular || !IsManaged(e.name) {
        continue;
      }
      if e.name in policy.liveNames {
        keptLive := keptLive + 1;
        continue;
      }
      if e.mtime == None {
        continue;
      }
      var size := SizeOf(e);
      if e.mtime.value <= policy.now && policy.now - e.mtime.value >= policy.maxAge {
        if e.removable {
          ghost var before := removed;
          removed := removed + [Unused(e.name, e.mtime.value, size, true)];
          assert removed[..|removed| - 1] == before;
          if space.Some? {
            avail := SaturatingAdd(avail, size);
          }
        }
        continue;
      }
      young := young + [Unused(e.name, e.mtime.value, size, e.removable)];
    }
    assert listing[..|listing|] == listing;
  }

  /** The pressure pass over the ordered files: it attempts the shortest prefix that clears
      the floor, removes what can be removed of it and keeps everything else. */
  method PressurePass(files: seq<Unused>, policy: Policy, start: Space)
    returns (removed: seq<Unused>, kept: nat, pressure: bool, ghost k: nat)
    ensures ShortestClearing(start, policy, files, k)
    ensures removed == Removable(files[..k]) && kept + |removed| == |files|
    ensures pressure == SpaceIsTight(Reclaimed(start.avail, files[..k]), start.total, policy)
  {
    removed, kept, k := [], 0, 0;
    var avail := start.avail;
    pressure := SpaceIsTight(avail, start.total, policy);
    for i := 0 to |files|
      invariant k <= i && (pressure ==> k == i)
      invariant avail == Reclaimed(start.avail, files[..k])
      invariant pressure == SpaceIsTight(avail, start.total, policy)
      invariant forall p :: 0 <= p < k ==> SpaceIsTight(Reclaimed(start.avail, files[..p]), start.total, policy)
      invariant removed == Removable(files[..k]) && kept + |removed| == i
    {
      if !pressure {
        kept := kept + 1;
        continue;
      }
      assert files[..k + 1][..k] == files[..k];
      k := k + 1;
      if !files[i].removable {
        kept := kept + 1;
        continue;
      }
      removed := removed + [files[i]];
      avail := SaturatingAdd(avail, files[i].bytes);
      pressure := SpaceIsTight(avail, start.total, policy);
    }
  }

  /** The whole sweep. Without the directory nothing happens; without space figures only
      aged files go. */
  method SweepHttpImageCache(haveDirectory: bool, listing: seq<Entry>, policy: Policy, space: Option<Space>)
    returns (counters: Counters, pressure: bool, removed: seq<Unused>, ghost k: nat)
    ensures !haveDirectory ==> counters == Counters(0, 0, 0, 0) && !pressure && removed == []
    ensures haveDirectory ==>
              var aged := AgedRemoved(listing, policy);
              var files := Sort(YoungFiles(listing, policy));
              && k <= |files| && removed == aged + Removable(files[..k])
              && counters == Counters(|aged|, |Removable(files[..k])|, CountClass(listing, policy, Live),
                                      |files| - |Removable(files[..k])|)
              && (space == None ==> k == 0 && !pressure)
              && (space.Some? ==>
                    var start := Space(Reclaimed(space.value.avail, aged), space.value.total);
                    && ShortestClearing(start, policy, files, k)
                    && pressure == SpaceIsTight(Reclaimed(start.avail, files[..k]), start.total, policy))
  {
    if !haveDirectory {
      return Counters(0, 0, 0, 0), false, [], 0;
    }
    var aged, young, keptLive, avail := AgePass(listing, policy, space);
    var files := Sort(young);
    if space == None {
      return Counters(|aged|, 0, keptLive, |files|), false, aged, 0;
    }
    var gone, kept;
    gone, kept, pressure, k := PressurePass(files, policy, Space(avail, space.value.total));
    counters := Counters(|aged|, |gone|, keptLive, kept);
    removed := aged + gone;
  }

  // ---- what a sweep may and must remove ----

  /** The entry behind a removed file. */
  ghost predicate From(listing: seq<Entry>, policy: Policy, f: Unused, class_: Class) {
    exists i :: 0 <= i < |listing| && Classify(listing[i], policy) == class_ && listing[i].name == f.name
  }

  lemma FromPrefix(listing: seq<Entry>, policy: Policy, f: Unused, class_: Class)
    requires listing != [] && From(listing[..|listing| - 1], policy, f, class_)
    ensures From(listing, policy, f, class_)
  {
  }

  lemma {:induction false} CollectedFrom(listing: seq<Entry>, policy: Policy)
    ensures forall f :: f in AgedRemoved(listing, policy) ==> From(listing, policy, f, Aged)
    ensures forall f :: f in YoungFiles(listing, policy) ==> From(listing, policy, f, Young)
  {
    if listing != [] {
      var rest := listing[..|listing| - 1];
      CollectedFrom(rest, policy);
      forall f | f in AgedRemoved(listing, policy) ensures From(listing, policy, f, Aged) {
        if f in AgedRemoved(rest, policy) { FromPrefix(listing, policy, f, Aged); }
      }
      forall f | f in YoungFiles(listing, policy) ensures From(listing, policy, f, Young) {
        if f in YoungFiles(rest, policy) { FromPrefix(listing, policy, f, Young); }
      }
    }
  }

  lemma FromIsSafe(listing: seq<Entry>, policy: Policy, f: Unused, class_: Class)
    requires From(listing, policy, f, class_) && (class_ == Aged || class_ == Young)
    ensures f.name !in policy.liveNames && IsManaged(f.name)
  {
  }

  /** Whatever the sweep removes is a managed file, and never one with a live name. */
  lemma LiveNeverRemoved(listing: seq<Entry>, policy: Policy, k: nat)
    requires k <= |Sort(YoungFiles(listing, policy))|
    ensures var removed := AgedRemoved(listing, policy) + Removable(Sort(YoungFiles(listing, policy))[..k]);
            forall f :: f in removed ==> f.name !in policy.liveNames && IsManaged(f.name)
  {
    hide IsManaged, From;
    var young := YoungFiles(listing, policy);
    var files := Sort(young);
    CollectedFrom(listing, policy);
    SortIs(young);
    RemovableIn(files[..k]);
    forall f | f in AgedRemoved(listing, policy) + Removable(files[..k])
      ensures f.name !in policy.liveNames && IsManaged(f.name)
    {
      if f in AgedRemoved(listing, policy) {
        FromIsSafe(listing, policy, f, Aged);
      } else {
        assert f in files[..k] && f in files && f in multiset(files) && f in multiset(young);
        FromIsSafe(listing, policy, f, Young);
      }
    }
  }

  /** Every aged file that can be removed is removed. */
  lemma {:induction false} AgedAllRemoved(listing: seq<Entry>, policy: Policy, i: nat)
    requires i < |listing| && Classify(listing[i], policy) == Aged && listing[i].removable
    ensures Unused(listing[i].name, listing[i].mtime.value, SizeOf(listing[i]), true) in AgedRemoved(listing, policy)
    decreases |listing|
  {
    if i < |listing| - 1 { AgedAllRemoved(listing[..|listing| - 1], policy, i); }
  }

  function Stuck(listing: seq<Entry>, policy: Policy): nat {
    if listing == [] then 0
    else Stuck(listing[..|listing| - 1], policy)
         + (if Classify(listing[|listing| - 1], policy) == Aged && !listing[|listing| - 1].removable then 1 else 0)
  }

  /** The four counters add up to the managed files, short of those whose time cannot be
      read and of aged ones that could not be removed. */
  lemma {:induction false} CountersSum(listing: seq<Entry>, policy: Policy)
    ensures |AgedRemoved(listing, policy)| + |YoungFiles(listing, policy)| + CountClass(listing, policy, Live) ==
            |listing| - CountClass(listing, policy, Foreign) - CountClass(listing, policy, Unreadable)
            - Stuck(listing, policy)
    ensures |Sort(YoungFiles(listing, policy))| == |YoungFiles(listing, policy)|
  {
    if listing != [] {
      hide Classify;
      CountersSum(listing[..|listing| - 1], policy);
    }
    SortIs(YoungFiles(listing, policy));
    assert |multiset(Sort(YoungFiles(listing, policy)))| == |multiset(YoungFiles(listing, policy))|;
  }

  // ---- which files go, from the listing alone ----

  /** A managed file that no live name protects, whose time can be read. */
  predicate Candidate(e: Entry, policy: Policy) {
    e.regular && IsManaged(e.name) && e.name !in policy.liveNames && e.mtime.Some?
  }

  /** Its age is at least the limit; a time in the future is no age. */
  predicate OldEnough(e: Entry, policy: Policy)
    requires e.mtime.Some?
  {
    e.mtime.value <= policy.now && e.mtime.value + policy.maxAge <= policy.now
  }

  /** The file of an entry; a size that cannot be read counts as zero. */
  function FileOf(e: Entry): Unused
    requires e.mtime.Some?
  {
    Unused(e.name, e.mtime.value, if e.size.Some? then e.size.value else 0, e.removable)
  }

  predicate IsAged(listing: seq<Entry>, policy: Policy, f: Unused) {
    exists i :: 0 <= i < |listing| && Candidate(listing[i], policy) && OldEnough(listing[i], policy)
                && listing[i].removable && f == FileOf(listing[i])
  }

  predicate IsYoung(listing: seq<Entry>, policy: Policy, f: Unused) {
    exists i :: 0 <= i < |listing| && Candidate(listing[i], policy) && !OldEnough(listing[i], policy)
                && f == FileOf(listing[i])
  }

  lemma LastEntry(listing: seq<Entry>, policy: Policy, f: Unused)
    requires listing != []
    ensures var rest, e := listing[..|listing| - 1], listing[|listing| - 1];
            && (IsAged(listing, policy, f) <==>
                  IsAged(rest, policy, f)
                  || (Candidate(e, policy) && OldEnough(e, policy) && e.removable && f == FileOf(e)))
            && (IsYoung(listing, policy, f) <==>
                  IsYoung(rest, policy, f) || (Candidate(e, policy) && !OldEnough(e, policy) && f == FileOf(e)))
  {
    hide Candidate, OldEnough, FileOf;
    var last := |listing| - 1;
    assert forall i :: 0 <= i < last ==> listing[..last][i] == listing[i];
  }

  /** The age pass removes exactly the candidates of that age that can be removed, and leaves
      exactly the younger ones to the pressure pass. */
  lemma {:induction false} AgeExactly(listing: seq<Entry>, policy: Policy, f: Unused)
    ensures f in AgedRemoved(listing, policy) <==> IsAged(listing, policy, f)
    ensures f in YoungFiles(listing, policy) <==> IsYoung(listing, policy, f)
  {
    if listing != [] {
      hide IsAged, IsYoung, IsManaged;
      AgeExactly(listing[..|listing| - 1], policy, f);
      LastEntry(listing, policy, f);
    }
  }

  predicate IsLive(e: Entry, policy: Policy) { e.regular && IsManaged(e.name) && e.name in policy.liveNames }

  function LiveAt(listing: seq<Entry>, policy: Policy): set<int> {
    set i | 0 <= i < |listing| && IsLive(listing[i], policy)
  }

  lemma LiveNext(listing: seq<Entry>, policy: Policy)
    requires listing != []
    ensures var last := |listing| - 1;
            var before := LiveAt(listing[..last], policy);
            last !in before
            && LiveAt(listing, policy) == if IsLive(listing[last], policy) then before + {last} else before
  {
    hide IsLive;
  }

  /** The live files are counted one by one. */
  lemma {:induction false} LiveExactly(listing: seq<Entry>, policy: Policy)
    ensures CountClass(listing, policy, Live) == |LiveAt(listing, policy)|
  {
    if listing != [] {
      LiveNext(listing, policy);
      LiveClass(listing[|listing| - 1], policy);
      hide Classify, LiveAt, IsLive;
      LiveExactly(listing[..|listing| - 1], policy);
    }
  }

  lemma LiveClass(e: Entry, policy: Policy)
    ensures Classify(e, policy) == Live <==> IsLive(e, policy)
  {
    hide IsManaged;
  }
}
