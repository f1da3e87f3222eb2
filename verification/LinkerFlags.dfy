/**
  The Go linker-flag filter: flags that carry build paths are dropped, also inside the
  space-separated string that follows an -extldflags flag.
 */
module LinkerFlags {
  import opened Wrappers
  import opened Strings

  // What the filter recognises: prefixes of flags to drop, and the prefix of flags with an argument.
  datatype RawRules = Rules(dropped: seq<string>, ext: string)

  type Rules = g: RawRules | g.ext != [] witness Rules([], "-")

  const GO: Rules := Rules(
    ["--sysroot", "-fmacro-prefix-map", "-fdebug-prefix-map", "-ffile-prefix-map", "-fcanon-prefix-map",
     "-fprofile-prefix-map", "-Wl,-rpath-link"],
    "-extldflags")

  predicate IsDropped(g: Rules, flag: string) {
    exists k :: 0 <= k < |g.dropped| && g.dropped[k] <= flag
  }

  predicate IsExt(g: Rules, flag: string) {
    !IsDropped(g, flag) && g.ext <= flag
  }

  // None is the run-time panic of an -extldflags flag without a successor.
  function Filter(g: Rules, flags: seq<string>): Option<seq<string>>
    decreases TotalLen(flags), |flags|
  {
    if flags == [] then Some([])
    else if IsDropped(g, flags[0]) then Filter(g, flags[1..])
    else if g.ext <= flags[0] then
      if |flags| == 1 then None
      else
        assert TotalLen(flags) == |flags[0]| + |flags[1]| + TotalLen(flags[2..]) by { assert flags[1..][1..] == flags[2..]; }
        match (FilterArg(g, flags[1]), Filter(g, flags[2..]))
        case (Some(arg), Some(rest)) => Some([flags[0], arg] + rest)
        case _ => None
    else
      match Filter(g, flags[1..])
      case Some(rest) => Some([flags[0]] + rest)
      case None => None
  }

  // The filtered argument of -extldflags.
  function FilterArg(g: Rules, arg: string): Option<string>
    decreases |arg|, |arg| + 2
  {
    SplitLen(arg, ' ');
    SplitCount(arg, ' ');
    match Filter(g, Split(arg, ' '))
    case Some(parts) => Some(Join(parts, ' '))
    case None => None
  }

  lemma {:induction false} SplitCount(s: string, sep: char)
    ensures |Split(s, sep)| <= |s| + 1
  {
    if s != [] {
      SplitCount(s[1..], sep);
    }
  }

  method FilterLinkerFlags(flags: seq<string>) returns (res: Option<seq<string>>)
    ensures res == Filter(GO, flags)
  {
    res := FilterWith(GO, flags);
  }

  // The loop of filterLinkerFlags; each recursive call works on strictly shorter text.
  method FilterWith(g: Rules, flags: seq<string>) returns (res: Option<seq<string>>)
    ensures res == Filter(g, flags)
    decreases TotalLen(flags)
  {
    var newflags: seq<string> := [];
    var skipflag := false;
    var i := 0;
    assert flags[0..] == flags;
    while i < |flags|
      invariant i <= |flags|
      invariant skipflag ==> 0 < i < |flags|
      invariant TotalLen(flags[i..]) <= TotalLen(flags)
      invariant Filter(g, flags) == Prepend(newflags, Filter(g, Rest(flags, i, skipflag)))
    {
      var flag := flags[i];
      ghost var rest := flags[i..];
      assert rest[1..] == flags[i + 1..];
      i := i + 1;
      if skipflag {
        skipflag := false;
        continue;
      }
      if IsDropped(g, flag) {
        continue;
      } else if g.ext <= flag {
        skipflag := true;
        ghost var before := newflags;
        newflags := newflags + [flag];
        if i == |flags| {
          return None;
        }
        assert rest[2..] == flags[i + 1..];
        assert TotalLen(rest) == |flag| + |flags[i]| + TotalLen(rest[2..]) by { assert rest[1..][1..] == rest[2..]; }
        SplitLen(flags[i], ' ');
        var inner := FilterWith(g, Split(flags[i], ' '));
        if inner.None? {
          return None;
        }
        newflags := newflags + [Join(inner.value, ' ')];
        PrependTwice(before, [flag, Join(inner.value, ' ')], Filter(g, rest[2..]));
        assert newflags == before + [flag, Join(inner.value, ' ')];
      } else {
        PrependTwice(newflags, [flag], Filter(g, rest[1..]));
        newflags := newflags + [flag];
      }
    }
    assert Rest(flags, i, skipflag) == [];
    return Some(newflags);
  }

  // What the loop has still to look at.
  function Rest(flags: seq<string>, i: nat, skipflag: bool): seq<string>
    requires i <= |flags| && (skipflag ==> i < |flags|)
  {
    if skipflag then flags[i + 1..] else flags[i..]
  }

  lemma PrependTwice(a: seq<string>, b: seq<string>, r: Option<seq<string>>)
    ensures Prepend(a, Prepend(b, r)) == Prepend(a + b, r)
  {
    if r.Some? {
      assert a + (b + r.value) == a + b + r.value;
    }
  }

  function Prepend(done: seq<string>, r: Option<seq<string>>): (p: Option<seq<string>>)
    ensures done == [] ==> p == r
    ensures r == Some([]) ==> p == Some(done)
  {
    match r
    case Some(rest) =>
      assert done == [] ==> done + rest == rest;
      assert rest == [] ==> done + rest == done;
      Some(done + rest)
    case None => None
  }

  // ----- Positions -----

  // Position k holds a flag, or is the end, unless an -extldflags flag before it takes it as its argument.
  predicate FlagAt(g: Rules, flags: seq<string>, k: nat)
    requires k <= |flags|
  {
    k == 0 || !(FlagAt(g, flags, k - 1) && IsExt(g, flags[k - 1]))
  }

  lemma {:induction false} TotalLenAt(flags: seq<string>, k: nat)
    requires k + 1 < |flags|
    ensures |flags[k]| + |flags[k + 1]| <= TotalLen(flags)
  {
    if k > 0 {
      TotalLenAt(flags[1..], k - 1);
    } else {
      assert flags[1..][0] == flags[1];
    }
  }

  lemma ArgShrinks(g: Rules, flags: seq<string>, k: nat)
    requires k + 1 < |flags| && IsExt(g, flags[k])
    ensures TotalLen(Split(flags[k + 1], ' ')) < TotalLen(flags)
  {
    TotalLenAt(flags, k);
    SplitLen(flags[k + 1], ' ');
  }

  // Every -extldflags flag has a successor, and so it is inside that successor.
  ghost predicate WellPaired(g: Rules, flags: seq<string>)
    decreases TotalLen(flags)
  {
    forall k: nat :: k < |flags| && FlagAt(g, flags, k) && IsExt(g, flags[k]) ==>
      && k + 1 < |flags|
      && (ArgShrinks(g, flags, k); WellPaired(g, Split(flags[k + 1], ' ')))
  }

  // Filtering panics exactly on lists that are not well paired.
  lemma {:induction false} PanicsIffUnpaired(g: Rules, flags: seq<string>)
    ensures Filter(g, flags).Some? <==> WellPaired(g, flags)
    decreases TotalLen(flags)
  {
    forall k: nat | k + 1 < |flags| && FlagAt(g, flags, k) && IsExt(g, flags[k])
      ensures FilterArg(g, flags[k + 1]).Some? <==> WellPaired(g, Split(flags[k + 1], ' '))
    {
      ArgShrinks(g, flags, k);
      PanicsIffUnpaired(g, Split(flags[k + 1], ' '));
    }
    assert flags[0..] == flags;
    SuffixPanics(g, flags, 0);
    if WellPaired(g, flags) {
      assert forall k: nat :: 0 <= k < |flags| ==> ArgFine(g, flags, k);
    } else {
      var k: nat :| k < |flags| && FlagAt(g, flags, k) && IsExt(g, flags[k])
        && (k + 1 < |flags| ==> (ArgShrinks(g, flags, k); !WellPaired(g, Split(flags[k + 1], ' '))));
      assert !ArgFine(g, flags, k);
    }
  }

  // If position k holds an -extldflags flag, its argument is there and can be filtered.
  predicate ArgFine(g: Rules, flags: seq<string>, k: nat)
    requires k < |flags|
  {
    FlagAt(g, flags, k) && IsExt(g, flags[k]) ==> k + 1 < |flags| && FilterArg(g, flags[k + 1]).Some?
  }

  lemma {:induction false} SuffixPanics(g: Rules, flags: seq<string>, i: nat)
    requires i <= |flags| && FlagAt(g, flags, i)
    ensures Filter(g, flags[i..]).Some? <==> forall k: nat :: i <= k < |flags| ==> ArgFine(g, flags, k)
    decreases |flags| - i
  {
    if i < |flags| {
      var rest := flags[i..];
      if !IsExt(g, flags[i]) {
        assert rest[1..] == flags[i + 1..];
        SuffixPanics(g, flags, i + 1);
        assert ArgFine(g, flags, i);
      } else if i + 1 < |flags| {
        assert !FlagAt(g, flags, i + 1) && ArgFine(g, flags, i + 1);
        assert rest[2..] == flags[i + 2..];
        SuffixPanics(g, flags, i + 2);
        assert ArgFine(g, flags, i) <==> FilterArg(g, rest[1]).Some?;
      } else {
        assert !ArgFine(g, flags, i);
      }
    }
  }

  // ----- What is kept -----

  predicate DroppedAt(g: Rules, flags: seq<string>, k: nat)
    requires k < |flags|
  {
    FlagAt(g, flags, k) && IsDropped(g, flags[k])
  }

  // The positions from i on that survive.
  function KeptFrom(g: Rules, flags: seq<string>, i: nat): (ks: seq<nat>)
    requires i <= |flags|
    decreases |flags| - i
  {
    if i == |flags| then []
    else if DroppedAt(g, flags, i) then KeptFrom(g, flags, i + 1)
    else [i] + KeptFrom(g, flags, i + 1)
  }

  lemma {:induction false} KeptInOrder(g: Rules, flags: seq<string>, i: nat)
    requires i <= |flags|
    ensures var ks := KeptFrom(g, flags, i);
      && (forall j :: 0 <= j < |ks| ==> i <= ks[j] < |flags| && !DroppedAt(g, flags, ks[j]))
      && (forall a, b :: 0 <= a < b < |ks| ==> ks[a] < ks[b])
      && (forall k :: i <= k < |flags| && !DroppedAt(g, flags, k) ==> k in ks)
    decreases |flags| - i
  {
    if i < |flags| {
      KeptInOrder(g, flags, i + 1);
    }
  }

  // A flag is kept as it is, an argument is filtered.
  function OutputAt(g: Rules, flags: seq<string>, k: nat): Option<string>
    requires k < |flags|
  {
    if FlagAt(g, flags, k) then Some(flags[k]) else FilterArg(g, flags[k])
  }

  // r lists what the positions ks contribute.
  predicate Outputs(g: Rules, flags: seq<string>, ks: seq<nat>, r: seq<string>) {
    && |r| == |ks|
    && forall j :: 0 <= j < |r| ==> ks[j] < |flags| && OutputAt(g, flags, ks[j]) == Some(r[j])
  }

  lemma OutputsAppend(g: Rules, flags: seq<string>, ks: seq<nat>, r: seq<string>, ks': seq<nat>, r': seq<string>)
    requires Outputs(g, flags, ks, r) && Outputs(g, flags, ks', r')
    ensures Outputs(g, flags, ks + ks', r + r')
  {
  }

  lemma {:induction false} SuffixKeeps(g: Rules, flags: seq<string>, i: nat)
    requires i <= |flags| && FlagAt(g, flags, i) && Filter(g, flags[i..]).Some?
    ensures Outputs(g, flags, KeptFrom(g, flags, i), Filter(g, flags[i..]).value)
    decreases |flags| - i
  {
    if i < |flags| {
      var rest := flags[i..];
      assert rest[1..] == flags[i + 1..];
      if !IsExt(g, flags[i]) {
        SuffixKeeps(g, flags, i + 1);
        if !IsDropped(g, flags[i]) {
          OutputsAppend(g, flags, [i], [flags[i]], KeptFrom(g, flags, i + 1), Filter(g, rest[1..]).value);
        }
      } else {
        var r' := Filter(g, rest[2..]).value;
        assert rest[2..] == flags[i + 2..];
        NotFlagAfterExt(g, flags, i);
        SuffixKeeps(g, flags, i + 2);
        var two := [flags[i], FilterArg(g, flags[i + 1]).value];
        assert Outputs(g, flags, [i, i + 1], two);
        OutputsAppend(g, flags, [i, i + 1], two, KeptFrom(g, flags, i + 2), r');
      }
    }
  }

  lemma NotFlagAfterExt(g: Rules, flags: seq<string>, i: nat)
    requires i + 1 < |flags| && FlagAt(g, flags, i) && IsExt(g, flags[i])
    ensures !FlagAt(g, flags, i + 1) && FlagAt(g, flags, i + 2)
    ensures KeptFrom(g, flags, i) == [i, i + 1] + KeptFrom(g, flags, i + 2)
  {
  }

  // The result lists, in their original order (KeptInOrder), exactly the positions that are not a
  // flag with a dropped prefix: flags unchanged, -extldflags arguments filtered.
  lemma KeepsOrder(g: Rules, flags: seq<string>)
    requires WellPaired(g, flags)
    ensures Filter(g, flags).Some? && Outputs(g, flags, KeptFrom(g, flags, 0), Filter(g, flags).value)
  {
    PanicsIffUnpaired(g, flags);
    assert flags[0..] == flags;
    SuffixKeeps(g, flags, 0);
  }

  // ----- Idempotence -----

  lemma {:induction false} ResultFree(g: Rules, flags: seq<string>)
    requires Free(flags, ' ') && Filter(g, flags).Some?
    ensures Free(Filter(g, flags).value, ' ')
    decreases |flags|
  {
    if flags != [] {
      if !IsExt(g, flags[0]) {
        ResultFree(g, flags[1..]);
      } else {
        ResultFree(g, flags[2..]);
        SplitPiece(flags[1], ' ');
        SingletonFilter(g, flags[1]);
      }
    }
  }

  lemma SingletonFilter(g: Rules, flag: string)
    requires ' ' !in flag && FilterArg(g, flag).Some?
    ensures FilterArg(g, flag).value in {"", flag}
  {
    SplitPiece(flag, ' ');
    var one := [flag];
    assert one[1..] == [];
    assert Filter(g, one[1..]) == Some([]);
    assert [one[0]] + [] == one;
    assert Split(flag, ' ') == one;
  }

  lemma {:induction false} ArgIdempotent(g: Rules, arg: string)
    requires FilterArg(g, arg).Some?
    ensures FilterArg(g, FilterArg(g, arg).value) == FilterArg(g, arg)
    decreases |arg|, |arg| + 2
  {
    var parts := Split(arg, ' ');
    SplitFree(arg, ' ');
    SplitLen(arg, ' ');
    SplitCount(arg, ' ');
    ResultFree(g, parts);
    Idempotent(g, parts);
    SplitJoin(Filter(g, parts).value, ' ');
  }

  // Filtering a filtered list changes nothing.
  lemma {:induction false} Idempotent(g: Rules, flags: seq<string>)
    requires Filter(g, flags).Some?
    ensures Filter(g, Filter(g, flags).value) == Filter(g, flags)
    decreases TotalLen(flags), |flags|
  {
    if flags != [] {
      var r := Filter(g, flags).value;
      if IsDropped(g, flags[0]) {
        Idempotent(g, flags[1..]);
      } else if g.ext <= flags[0] {
        TotalLenAt(flags, 0);
        assert flags[1..][1..] == flags[2..];
        ArgIdempotent(g, flags[1]);
        Idempotent(g, flags[2..]);
        assert r[2..] == Filter(g, flags[2..]).value;
      } else {
        Idempotent(g, flags[1..]);
        assert r[1..] == Filter(g, flags[1..]).value;
      }
    }
  }

  // No flag of a filtered list has a dropped prefix.
  lemma {:induction false} NoneDropped(g: Rules, flags: seq<string>, k: nat)
    requires Filter(g, flags).Some? && k < |Filter(g, flags).value| && FlagAt(g, Filter(g, flags).value, k)
    ensures !IsDropped(g, Filter(g, flags).value[k])
    decreases |flags|
  {
    var r := Filter(g, flags).value;
    if IsDropped(g, flags[0]) {
      NoneDropped(g, flags[1..], k);
    } else if k > 0 {
      if IsExt(g, flags[0]) {
        assert k >= 2 && r[2..] == Filter(g, flags[2..]).value;
        assert !FlagAt(g, r, 1) && FlagAt(g, r, 2);
        FlagAtTail(g, r, 2, k);
        NoneDropped(g, flags[2..], k - 2);
      } else {
        assert r[1..] == Filter(g, flags[1..]).value;
        FlagAtTail(g, r, 1, k);
        NoneDropped(g, flags[1..], k - 1);
      }
    }
  }

  // ----- Build-path independence -----

  function Insert(flags: seq<string>, p: nat, d: string): seq<string>
    requires p <= |flags|
  {
    flags[..p] + [d] + flags[p..]
  }

  // A build-path flag at any flag position makes no difference to the result.
  lemma {:induction false} InsertDropped(g: Rules, flags: seq<string>, p: nat, d: string)
    requires p <= |flags| && FlagAt(g, flags, p) && IsDropped(g, d)
    ensures Filter(g, Insert(flags, p, d)) == Filter(g, flags)
    decreases p
  {
    var ins := Insert(flags, p, d);
    if p == 0 {
      assert ins[1..] == flags;
    } else if !IsExt(g, flags[0]) {
      FlagAtTail(g, flags, 1, p);
      InsertDropped(g, flags[1..], p - 1, d);
      assert ins[1..] == Insert(flags[1..], p - 1, d);
    } else {
      assert !FlagAt(g, flags, 1);
      FlagAtTail(g, flags, 2, p);
      InsertDropped(g, flags[2..], p - 2, d);
      assert ins[2..] == Insert(flags[2..], p - 2, d);
    }
  }

  lemma {:induction false} FlagAtTail(g: Rules, flags: seq<string>, i: nat, k: nat)
    requires i <= k <= |flags| && FlagAt(g, flags, i)
    ensures FlagAt(g, flags[i..], k - i) == FlagAt(g, flags, k)
    decreases k
  {
    if i < k {
      FlagAtTail(g, flags, i, k - 1);
    }
  }

  // The same inside an -extldflags string, seen as a list of parts.  A string that is nothing but
  // the inserted flag counts as well: without it no part is left.
  lemma InsertDroppedInside(g: Rules, parts: seq<string>, p: nat, d: string)
    requires Free(parts, ' ') && p <= |parts| && FlagAt(g, parts, p) && IsDropped(g, d) && ' ' !in d
    ensures FilterArg(g, Join(Insert(parts, p, d), ' ')) == FilterArg(g, Join(parts, ' '))
  {
    if parts == [] {
      assert Insert(parts, p, d) == [d];
      SplitPiece(d, ' ');
      OnlyDropped(g, d);
      EmptyPart(g);
    } else {
      SplitJoin(parts, ' ');
      SplitJoin(Insert(parts, p, d), ' ');
      InsertDropped(g, parts, p, d);
    }
  }

  lemma EmptyPart(g: Rules)
    ensures FilterArg(g, "") == Some("")
  {
    var one := [""];
    assert Split("", ' ') == one && one[1..] == [];
    assert [one[0]] + [] == one;
    assert Filter(g, one) == if IsDropped(g, "") then Some([]) else Some(one);
  }

  lemma OnlyDropped(g: Rules, d: string)
    requires IsDropped(g, d)
    ensures Filter(g, [d]) == Some([])
  {
    assert [d][1..] == [];
  }

  // Only the filtered form of an argument matters to the whole.
  lemma {:induction false} ArgReplaced(g: Rules, flags: seq<string>, k: nat, arg: string)
    requires k < |flags| && !FlagAt(g, flags, k) && FilterArg(g, arg) == FilterArg(g, flags[k])
    ensures Filter(g, flags[k := arg]) == Filter(g, flags)
    decreases k
  {
    var changed := flags[k := arg];
    if !IsExt(g, flags[0]) {
      FlagAtTail(g, flags, 1, k);
      ArgReplaced(g, flags[1..], k - 1, arg);
      assert changed[1..] == flags[1..][k - 1 := arg];
    } else if k > 1 {
      assert !FlagAt(g, flags, 1);
      FlagAtTail(g, flags, 2, k);
      ArgReplaced(g, flags[2..], k - 2, arg);
      assert changed[2..] == flags[2..][k - 2 := arg];
    } else {
      assert changed[2..] == flags[2..];
    }
  }

  // A build path inserted into an -extldflags string, or removed from it, does not change the result.
  lemma BuildPathInsideArg(g: Rules, flags: seq<string>, k: nat, parts: seq<string>, p: nat, d: string)
    requires k < |flags| && !FlagAt(g, flags, k) && flags[k] == Join(parts, ' ')
    requires Free(parts, ' ') && p <= |parts| && FlagAt(g, parts, p) && IsDropped(g, d) && ' ' !in d
    ensures Filter(g, flags[k := Join(Insert(parts, p, d), ' ')]) == Filter(g, flags)
  {
    InsertDroppedInside(g, parts, p, d);
    ArgReplaced(g, flags, k, Join(Insert(parts, p, d), ' '));
  }

  // Two builds whose flags differ only by the build path at one place of an -extldflags string hash
  // alike, also if that path is all there is.
  lemma TwoBuildsInsideArg(g: Rules, flags: seq<string>, k: nat, parts: seq<string>, p: nat, d: string, d': string)
    requires Free(parts, ' ') && p <= |parts| && FlagAt(g, parts, p)
    requires k < |flags| && !FlagAt(g, flags, k) && flags[k] == Join(Insert(parts, p, d), ' ')
    requires IsDropped(g, d) && ' ' !in d && IsDropped(g, d') && ' ' !in d'
    ensures Filter(g, flags[k := Join(Insert(parts, p, d'), ' ')]) == Filter(g, flags)
  {
    InsertDroppedInside(g, parts, p, d);
    InsertDroppedInside(g, parts, p, d');
    ArgReplaced(g, flags, k, Join(Insert(parts, p, d'), ' '));
  }

  // And two builds that differ by a build path among the flags themselves.
  lemma TwoBuilds(g: Rules, flags: seq<string>, p: nat, d: string, d': string)
    requires p <= |flags| && FlagAt(g, flags, p) && IsDropped(g, d) && IsDropped(g, d')
    ensures Filter(g, Insert(flags, p, d)) == Filter(g, Insert(flags, p, d'))
  {
    InsertDropped(g, flags, p, d);
    InsertDropped(g, flags, p, d');
  }

  // In general, two well-paired lists hash alike exactly if they agree on what they keep: the flags
  // without dropped prefixes and the filtered arguments, in order.
  lemma AlikeIffSameKept(g: Rules, x: seq<string>, y: seq<string>)
    requires WellPaired(g, x) && WellPaired(g, y)
    ensures Filter(g, x) == Filter(g, y) <==> SameKept(g, x, KeptFrom(g, x, 0), y, KeptFrom(g, y, 0))
  {
    KeepsOrder(g, x);
    KeepsOrder(g, y);
    var r, r' := Filter(g, x).value, Filter(g, y).value;
    if SameKept(g, x, KeptFrom(g, x, 0), y, KeptFrom(g, y, 0)) {
      assert forall j :: 0 <= j < |r| ==> r[j] == r'[j];
      assert r == r';
    }
  }

  predicate SameKept(g: Rules, x: seq<string>, ks: seq<nat>, y: seq<string>, ls: seq<nat>) {
    && |ks| == |ls|
    && forall j :: 0 <= j < |ks| ==> ks[j] < |x| && ls[j] < |y| && OutputAt(g, x, ks[j]) == OutputAt(g, y, ls[j])
  }

  // ----- In terms of prefixes -----

  lemma DroppedByPrefix(g: Rules, flag: string)
    ensures IsDropped(g, flag) <==> exists d :: d in g.dropped && d <= flag
  {
    if d :| d in g.dropped && d <= flag {
      var k :| 0 <= k < |g.dropped| && g.dropped[k] == d;
    }
    if IsDropped(g, flag) {
      var k :| 0 <= k < |g.dropped| && g.dropped[k] <= flag;
      assert g.dropped[k] in g.dropped;
    }
  }

  // A flag that starts with a listed prefix makes no difference, whatever follows the prefix.
  lemma PrefixDropped(g: Rules, flags: seq<string>, p: nat, d: string, path: string)
    requires p <= |flags| && FlagAt(g, flags, p) && d in g.dropped
    ensures Filter(g, Insert(flags, p, d + path)) == Filter(g, flags)
  {
    DroppedByPrefix(g, d + path);
    InsertDropped(g, flags, p, d + path);
  }

  // A flag that starts with no listed prefix and not with -extldflags stays in front of the rest.
  lemma OtherKept(g: Rules, flag: string, flags: seq<string>)
    requires (forall d :: d in g.dropped ==> !(d <= flag)) && !(g.ext <= flag)
    ensures Filter(g, [flag] + flags) ==
      match Filter(g, flags)
      case Some(rest) => Some([flag] + rest)
      case None => None
  {
    DroppedByPrefix(g, flag);
    assert ([flag] + flags)[1..] == flags;
  }

  // And one that starts with -extldflags stays, followed by its argument, whose blank-separated
  // parts have been filtered by the same rules.
  lemma ArgumentFiltered(g: Rules, flag: string, arg: string, flags: seq<string>)
    requires (forall d :: d in g.dropped ==> !(d <= flag)) && g.ext <= flag
    ensures Filter(g, [flag, arg] + flags) ==
      match (Filter(g, Split(arg, ' ')), Filter(g, flags))
      case (Some(parts), Some(rest)) => Some([flag, Join(parts, ' ')] + rest)
      case _ => None
    ensures Filter(g, [flag]) == None
  {
    DroppedByPrefix(g, flag);
    assert ([flag, arg] + flags)[2..] == flags;
  }

  lemma KeptHolds(g: Rules, flags: seq<string>, ks: seq<nat>, r: seq<string>, k: nat)
    requires ks == KeptFrom(g, flags, 0) && Outputs(g, flags, ks, r)
    requires k < |flags| && FlagAt(g, flags, k) && !IsDropped(g, flags[k])
    ensures flags[k] in r
  {
    KeptInOrder(g, flags, 0);
    assert !DroppedAt(g, flags, k) && k in ks;
    var j :| 0 <= j < |ks| && ks[j] == k;
    assert OutputAt(g, flags, ks[j]) == Some(r[j]);
  }

  // Wherever a flag of the input starts with no listed prefix, the result holds it.
  lemma FlagStays(g: Rules, flags: seq<string>, k: nat)
    requires Filter(g, flags).Some? && k < |flags| && FlagAt(g, flags, k)
    requires forall d :: d in g.dropped ==> !(d <= flags[k])
    ensures flags[k] in Filter(g, flags).value
  {
    PanicsIffUnpaired(g, flags);
    KeepsOrder(g, flags);
    DroppedByPrefix(g, flags[k]);
    KeptHolds(g, flags, KeptFrom(g, flags, 0), Filter(g, flags).value, k);
  }

  // The rules of the source: the seven kinds of flags it drops, whatever path they carry.
  lemma GoDrops(path: string, flags: seq<string>)
    ensures Filter(GO, ["--sysroot" + path] + flags) == Filter(GO, flags)
    ensures Filter(GO, ["-fmacro-prefix-map" + path] + flags) == Filter(GO, flags)
    ensures Filter(GO, ["-fdebug-prefix-map" + path] + flags) == Filter(GO, flags)
    ensures Filter(GO, ["-ffile-prefix-map" + path] + flags) == Filter(GO, flags)
    ensures Filter(GO, ["-fcanon-prefix-map" + path] + flags) == Filter(GO, flags)
    ensures Filter(GO, ["-fprofile-prefix-map" + path] + flags) == Filter(GO, flags)
    ensures Filter(GO, ["-Wl,-rpath-link" + path] + flags) == Filter(GO, flags)
  {
    GoDropsKind(0, path, flags);
    GoDropsKind(1, path, flags);
    GoDropsKind(2, path, flags);
    GoDropsKind(3, path, flags);
    GoDropsKind(4, path, flags);
    GoDropsKind(5, path, flags);
    GoDropsKind(6, path, flags);
  }

  lemma GoDropsKind(k: nat, path: string, flags: seq<string>)
    requires k < |GO.dropped|
    ensures Filter(GO, [GO.dropped[k] + path] + flags) == Filter(GO, flags)
  {
    PrefixDropped(GO, flags, 0, GO.dropped[k], path);
    assert Insert(flags, 0, GO.dropped[k] + path) == [GO.dropped[k] + path] + flags;
  }

  predicate SourceDrops(flag: string) {
    || "--sysroot" <= flag || "-fmacro-prefix-map" <= flag || "-fdebug-prefix-map" <= flag || "-ffile-prefix-map" <= flag
    || "-fcanon-prefix-map" <= flag || "-fprofile-prefix-map" <= flag || "-Wl,-rpath-link" <= flag
  }

  // It drops no other flags, and treats none but -extldflags specially.
  lemma GoKeeps(flag: string, arg: string, flags: seq<string>)
    requires !SourceDrops(flag)
    ensures !("-extldflags" <= flag) ==>
      Filter(GO, [flag] + flags) ==
        match Filter(GO, flags)
        case Some(rest) => Some([flag] + rest)
        case None => None
    ensures "-extldflags" <= flag ==>
      Filter(GO, [flag, arg] + flags) ==
        match (Filter(GO, Split(arg, ' ')), Filter(GO, flags))
        case (Some(parts), Some(rest)) => Some([flag, Join(parts, ' ')] + rest)
        case _ => None
  {
    assert forall d :: d in GO.dropped ==> !(d <= flag);
    if "-extldflags" <= flag {
      ArgumentFiltered(GO, flag, arg, flags);
    } else {
      OtherKept(GO, flag, flags);
    }
  }

  // A list on which the filter panics.
  lemma PanicExample()
    ensures Filter(GO, ["-extldflags"]) == None
  {
    var flag := "-extldflags";
    assert forall k :: 0 <= k < |GO.dropped| ==> GO.dropped[k][1] != flag[1];
    assert !IsDropped(GO, flag);
  }
}
