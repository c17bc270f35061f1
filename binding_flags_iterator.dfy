/**
 * `BindingFlagsIterator`: the member walk behind the reflection calls.
 *
 * `Run` compiles a `BindingFlags` set into a modifier mask and value plus a
 * "declared only" flag, then walks the type's `BaseType` chain, fetching the
 * declared constructors, methods or fields of one type at a time from the
 * host and handing every member whose modifiers match to a callback, which
 * can stop the whole walk by answering false.
 *
 * The host is abstract here: the chain of types from the initial type up to
 * the root is a sequence, each type carries its declared members per kind
 * in host order, each member carries its host modifier bit field, and the
 * callback is a pure function. `Run` reports which types it listed and which
 * members it handed to the callback, in order.
 */
module BindingFlagsIterator {
  import opened Runtime

  /* System.Reflection.BindingFlags */
  const DeclaredOnly: bv32 := 0x02
  const Instance: bv32 := 0x04
  const Static: bv32 := 0x08
  const Public: bv32 := 0x10
  const NonPublic: bv32 := 0x20

  /** The bits `Run` understands; any other bit is refused. */
  const Recognized: bv32 := Public | NonPublic | Static | Instance | DeclaredOnly

  /** java.lang.reflect.Modifier.STATIC, the host's static bit. */
  const STATIC: bv32 := 0x0008

  /* System.Reflection.MemberTypes values that `Run` dispatches on. */
  const ConstructorType: int := 0x01
  const FieldType: int := 0x04
  const MethodType: int := 0x08

  /** The member kinds the walk supports. */
  datatype MemberKind = Constructor | Method | Field

  /** `memberType` as a walk kind, or ArgumentException for any other `MemberTypes` value. */
  function KindOf(memberType: int): (r: Result<MemberKind>)
    ensures r.Ok? <==> memberType in {ConstructorType, MethodType, FieldType}
    ensures r.Err? ==> r.error == Argument
    ensures r.Ok? ==> (r.value == Constructor <==> memberType == ConstructorType)
    ensures r.Ok? ==> (r.value == Method <==> memberType == MethodType)
    ensures r.Ok? ==> (r.value == Field <==> memberType == FieldType)
  {
    if memberType == ConstructorType then Ok(Constructor)
    else if memberType == MethodType then Ok(Method)
    else if memberType == FieldType then Ok(Field)
    else Err(Argument)
  }

  /** A host constructor, method or field, as far as the walk looks at it. */
  datatype Member = Member(name: string, modifiers: bv32)

  /**
   * A type as the host reports it: an identity (compared by reference in the
   * source) and its declared members of each kind, in host order.
   */
  datatype TypeInfo = TypeInfo(id: int, constructors: seq<Member>, methods: seq<Member>, fields: seq<Member>)
  {
    /** `getDeclaredConstructors()`, `getDeclaredMethods()` or `getDeclaredFields()`. */
    function Declared(kind: MemberKind): seq<Member>
    {
      match kind
      case Constructor => constructors
      case Method => methods
      case Field => fields
    }
  }

  /** Whether a member carries the host's static bit. */
  predicate IsStatic(m: Member)
  {
    m.modifiers & STATIC != 0
  }

  /** What `Run` compiles a flag set into. */
  datatype Plan = Plan(mask: bv32, value: bv32, loopOnce: bool)
  {
    /**
     * The test each listed member goes through: `(modifiers & mask) == value`.
     * An empty mask lets every member through when the value is 0 too; a
     * value bit outside the mask can never be met.
     */
    predicate Matches(m: Member): (b: bool)
      ensures mask == 0 ==> (b <==> value == 0)
      ensures value & !mask != 0 ==> !b
    {
      m.modifiers & mask == value
    }
  }

  /** The three ways flag compilation can end. */
  datatype Compiled =
    | MatchesNothing        // no visibility bit, or no static/instance bit
    | Unsupported           // a bit outside `Recognized` remains
    | Ready(plan: Plan)

  /**
   * The flag compilation of `Run`, stated declaratively: an empty axis wins
   * over stray bits, the visibility axis never reaches the mask, and only
   * one of Static and Instance restricts members by the static bit.
   */
  function Compile(flags: bv32): (c: Compiled)
    ensures c.MatchesNothing? <==> flags & (Public | NonPublic) == 0 || flags & (Static | Instance) == 0
    ensures c.Unsupported? <==> !c.MatchesNothing? && flags & !Recognized != 0
    ensures c.Ready? ==> c.plan.value & !c.plan.mask == 0
    ensures c.Ready? ==> (c.plan.loopOnce <==> flags & DeclaredOnly != 0)
  {
    var binding := flags & (Static | Instance);
    if flags & (Public | NonPublic) == 0 || binding == 0 then MatchesNothing
    else if flags & !Recognized != 0 then Unsupported
    else
      var mask := if binding == Static | Instance then 0 else STATIC;
      var value := if binding == Static then STATIC else 0;
      Ready(Plan(mask, value, flags & DeclaredOnly != 0))
  }

  /** A compiled filter keeps a member exactly when its static-ness was asked for. */
  lemma CompiledFilterMeaning(flags: bv32, m: Member)
    requires Compile(flags).Ready?
    ensures Compile(flags).plan.Matches(m) <==>
      (IsStatic(m) && flags & Static != 0) || (!IsStatic(m) && flags & Instance != 0)
  {
  }

  /** Asking for Public, NonPublic or both gives the same plan. */
  lemma VisibilityNeverMasked(flags: bv32, vis: bv32)
    requires vis in {Public, NonPublic, Public | NonPublic}
    requires flags & (Public | NonPublic) != 0
    ensures Compile((flags & !(Public | NonPublic)) | vis) == Compile(flags)
  {
    VisibilityBits(flags, vis);
    CompileReads((flags & !(Public | NonPublic)) | vis, flags);
  }

  /** Replacing the visibility bits keeps a visibility bit and leaves every other bit `Compile` reads alone. */
  lemma VisibilityBits(flags: bv32, vis: bv32)
    requires vis in {Public, NonPublic, Public | NonPublic}
    ensures ((flags & !(Public | NonPublic)) | vis) & (Public | NonPublic) != 0
    ensures ((flags & !(Public | NonPublic)) | vis) & (Static | Instance) == flags & (Static | Instance)
    ensures ((flags & !(Public | NonPublic)) | vis) & !Recognized == flags & !Recognized
    ensures ((flags & !(Public | NonPublic)) | vis) & DeclaredOnly == flags & DeclaredOnly
  {
  }

  /**
   * `Compile` reads only whether some visibility bit is set, the static and
   * instance bits, the unrecognised bits and DeclaredOnly.
   */
  lemma CompileReads(f1: bv32, f2: bv32)
    requires (f1 & (Public | NonPublic) != 0) == (f2 & (Public | NonPublic) != 0)
    requires f1 & (Static | Instance) == f2 & (Static | Instance)
    requires f1 & !Recognized == f2 & !Recognized
    requires f1 & DeclaredOnly == f2 & DeclaredOnly
    ensures Compile(f1) == Compile(f2)
  {
  }

  /** The (mask, value) pair of each static/instance choice, the only shapes a plan takes. */
  lemma PlanShapes(flags: bv32)
    requires Compile(flags).Ready?
    ensures var p := Compile(flags).plan;
      (flags & (Static | Instance) == Static ==> p.mask == STATIC && p.value == STATIC) &&
      (flags & (Static | Instance) == Instance ==> p.mask == STATIC && p.value == 0) &&
      (flags & (Static | Instance) == Static | Instance ==>
        p.mask == 0 && p.value == 0 && forall m: Member :: p.Matches(m))
    ensures Compile(flags).plan.loopOnce <==> flags & DeclaredOnly != 0
  {
  }

  /** The declared members of `ms` that pass the filter, in host order. */
  function Filter(ms: seq<Member>, plan: Plan): seq<Member>
  {
    if ms == [] then []
    else Filter(ms[..|ms| - 1], plan) + (if plan.Matches(ms[|ms| - 1]) then [ms[|ms| - 1]] else [])
  }

  /** Every member the walk would offer the callback over `types`, type after type. */
  function Candidates(types: seq<TypeInfo>, kind: MemberKind, plan: Plan): seq<Member>
  {
    if types == [] then []
    else Candidates(types[..|types| - 1], kind, plan) + Filter(types[|types| - 1].Declared(kind), plan)
  }

  /** The position of the first type in `s` with identity `id`, or `|s|`. */
  function FirstWith(s: seq<TypeInfo>, id: int): (r: nat)
    ensures r <= |s|
    ensures forall j :: 0 <= j < r ==> s[j].id != id
    ensures r < |s| ==> s[r].id == id
  {
    if s == [] then 0
    else if s[0].id == id then 0
    else 1 + FirstWith(s[1..], id)
  }

  /**
   * The types the walk lists when the callback never stops it: the whole
   * chain, or only the initial type under DeclaredOnly; a field walk stops
   * before the type `objectId`.
   */
  function Scope(chain: seq<TypeInfo>, kind: MemberKind, loopOnce: bool, objectId: int): (s: seq<TypeInfo>)
    requires |chain| > 0
    ensures |s| <= |chain| && s == chain[..|s|]
    ensures kind != Field ==> |s| == (if loopOnce then 1 else |chain|)
    ensures kind == Field ==> |s| <= (if loopOnce then 1 else |chain|)
    ensures kind == Field ==> forall j :: 0 <= j < |s| ==> chain[j].id != objectId
    ensures kind == Field && |s| < (if loopOnce then 1 else |chain|) ==> chain[|s|].id == objectId
  {
    var reach := if loopOnce then chain[..1] else chain;
    if kind == Field then reach[..FirstWith(reach, objectId)] else reach
  }

  /**
   * What a walk over `scope` did: it listed a prefix of the scope and handed
   * the callback a prefix of the candidates, every one accepted but the last
   * when it stopped; without a stop it listed and offered everything; with a
   * stop, the stopping member lies in the last type listed.
   */
  ghost predicate IsWalk(scope: seq<TypeInfo>, kind: MemberKind, plan: Plan, callback: Member -> bool,
                         stopped: bool, listed: seq<TypeInfo>, visited: seq<Member>)
  {
    var all := Candidates(scope, kind, plan);
    && |listed| <= |scope| && listed == scope[..|listed|]
    && |visited| <= |all| && visited == all[..|visited|]
    && (forall i :: 0 <= i < |visited| - 1 ==> callback(visited[i]))
    && (stopped <==> |visited| > 0 && !callback(visited[|visited| - 1]))
    && (!stopped ==> listed == scope && visited == all)
    && (stopped ==>
          0 < |listed| &&
          |Candidates(listed[..|listed| - 1], kind, plan)| < |visited| <= |Candidates(listed, kind, plan)|)
  }

  /** Filtering one more declared member. */
  lemma FilterStep(ms: seq<Member>, j: nat, plan: Plan)
    requires j < |ms|
    ensures Filter(ms[..j + 1], plan) == Filter(ms[..j], plan) + (if plan.Matches(ms[j]) then [ms[j]] else [])
  {
    assert ms[..j + 1][..j] == ms[..j];
  }

  /** Listing one more type. */
  lemma CandidatesStep(types: seq<TypeInfo>, k: nat, kind: MemberKind, plan: Plan)
    requires k < |types|
    ensures Candidates(types[..k + 1], kind, plan) == Candidates(types[..k], kind, plan) + Filter(types[k].Declared(kind), plan)
  {
    assert types[..k + 1][..k] == types[..k];
  }

  lemma {:induction false} FilterPrefix(ms: seq<Member>, j: nat, plan: Plan)
    requires j <= |ms|
    ensures |Filter(ms[..j], plan)| <= |Filter(ms, plan)|
    ensures Filter(ms[..j], plan) == Filter(ms, plan)[..|Filter(ms[..j], plan)|]
    decreases |ms|
  {
    if j < |ms| {
      var init := ms[..|ms| - 1];
      assert init[..j] == ms[..j];
      FilterPrefix(init, j, plan);
    } else {
      assert ms[..j] == ms;
    }
  }

  /** Listing fewer types offers a prefix of the same members. */
  lemma {:induction false} CandidatesPrefix(types: seq<TypeInfo>, k: nat, kind: MemberKind, plan: Plan)
    requires k <= |types|
    ensures |Candidates(types[..k], kind, plan)| <= |Candidates(types, kind, plan)|
    ensures Candidates(types[..k], kind, plan) == Candidates(types, kind, plan)[..|Candidates(types[..k], kind, plan)|]
    decreases |types|
  {
    if k < |types| {
      var init := types[..|types| - 1];
      assert init[..k] == types[..k];
      CandidatesPrefix(init, k, kind, plan);
    } else {
      assert types[..k] == types;
    }
  }

  /** A declared member is kept by the filter exactly when its modifiers match. */
  lemma {:induction false} FilterMembers(ms: seq<Member>, plan: Plan, x: Member)
    ensures x in Filter(ms, plan) <==> x in ms && plan.Matches(x)
    decreases |ms|
  {
    if ms != [] {
      var init, last := ms[..|ms| - 1], ms[|ms| - 1];
      FilterMembers(init, plan, x);
      FilterStep(ms, |ms| - 1, plan);
      assert ms[..|ms|] == ms == init + [last];
      assert x in ms <==> x in init || x == last;
      assert x in Filter(ms, plan) <==> x in Filter(init, plan) || (x == last && plan.Matches(last));
    }
  }

  /** A member is a candidate exactly when some listed type declares it and it matches. */
  lemma {:induction false} CandidateMembers(types: seq<TypeInfo>, kind: MemberKind, plan: Plan, x: Member)
    ensures x in Candidates(types, kind, plan) <==>
      plan.Matches(x) && exists t :: t in types && x in t.Declared(kind)
    decreases |types|
  {
    if types != [] {
      var init, last := types[..|types| - 1], types[|types| - 1];
      assert types == init + [last];
      CandidateMembers(init, kind, plan, x);
      FilterMembers(last.Declared(kind), plan, x);
      if x in Candidates(types, kind, plan) && x !in Candidates(init, kind, plan) {
        assert x in last.Declared(kind) && last in types;
      }
      if plan.Matches(x) && exists t :: t in types && x in t.Declared(kind) {
        var t :| t in types && x in t.Declared(kind);
        if t != last {
          assert t in init;
        }
      }
    }
  }

  /** The members a walk hands to the callback come, in order, from the types it listed. */
  lemma VisitedFromListed(scope: seq<TypeInfo>, kind: MemberKind, plan: Plan, callback: Member -> bool,
                          stopped: bool, listed: seq<TypeInfo>, visited: seq<Member>)
    requires IsWalk(scope, kind, plan, callback, stopped, listed, visited)
    ensures |visited| <= |Candidates(listed, kind, plan)|
    ensures visited == Candidates(listed, kind, plan)[..|visited|]
    ensures forall x :: x in visited ==> plan.Matches(x) && exists t :: t in listed && x in t.Declared(kind)
  {
    CandidatesPrefix(scope, |listed|, kind, plan);
    forall x | x in visited
      ensures plan.Matches(x) && exists t :: t in listed && x in t.Declared(kind)
    {
      CandidateMembers(listed, kind, plan, x);
    }
  }

  /** When the callback stops the walk, it does so inside the last type listed. */
  lemma StopIsImmediate(scope: seq<TypeInfo>, kind: MemberKind, plan: Plan, callback: Member -> bool,
                        listed: seq<TypeInfo>, visited: seq<Member>)
    requires IsWalk(scope, kind, plan, callback, true, listed, visited)
    ensures !callback(visited[|visited| - 1])
    ensures visited[|visited| - 1] in Filter(listed[|listed| - 1].Declared(kind), plan)
    ensures visited[..|Candidates(listed[..|listed| - 1], kind, plan)|] == Candidates(listed[..|listed| - 1], kind, plan)
  {
    VisitedFromListed(scope, kind, plan, callback, true, listed, visited);
    var all := Candidates(listed, kind, plan);
    var before := Candidates(listed[..|listed| - 1], kind, plan);
    assert all == before + Filter(listed[|listed| - 1].Declared(kind), plan);
    assert visited[|visited| - 1] == all[|visited| - 1];
  }

  /** At most one walk satisfies `IsWalk`: the description leaves nothing open. */
  lemma WalkDeterministic(scope: seq<TypeInfo>, kind: MemberKind, plan: Plan, callback: Member -> bool,
                          s1: bool, l1: seq<TypeInfo>, v1: seq<Member>,
                          s2: bool, l2: seq<TypeInfo>, v2: seq<Member>)
    requires IsWalk(scope, kind, plan, callback, s1, l1, v1)
    requires IsWalk(scope, kind, plan, callback, s2, l2, v2)
    ensures s1 == s2 && l1 == l2 && v1 == v2
  {
    VisitedNoShorter(scope, kind, plan, callback, s1, l1, v1, s2, l2, v2);
    VisitedNoShorter(scope, kind, plan, callback, s2, l2, v2, s1, l1, v1);
    if s1 {
      ListedNoShorter(scope, kind, plan, callback, l1, v1, l2);
      ListedNoShorter(scope, kind, plan, callback, l2, v2, l1);
    }
  }

  /** Two walks of the same scope and callback: neither can have visited more than the other. */
  lemma VisitedNoShorter(scope: seq<TypeInfo>, kind: MemberKind, plan: Plan, callback: Member -> bool,
                         s1: bool, l1: seq<TypeInfo>, v1: seq<Member>,
                         s2: bool, l2: seq<TypeInfo>, v2: seq<Member>)
    requires IsWalk(scope, kind, plan, callback, s1, l1, v1)
    requires IsWalk(scope, kind, plan, callback, s2, l2, v2)
    ensures |v1| <= |v2|
  {
  }

  /** Two stopped walks that visited the same members listed the same number of types. */
  lemma ListedNoShorter(scope: seq<TypeInfo>, kind: MemberKind, plan: Plan, callback: Member -> bool,
                        l1: seq<TypeInfo>, v: seq<Member>, l2: seq<TypeInfo>)
    requires IsWalk(scope, kind, plan, callback, true, l1, v)
    requires IsWalk(scope, kind, plan, callback, true, l2, v)
    ensures |l1| <= |l2|
  {
    if |l2| < |l1| {
      var shorter := l1[..|l1| - 1];
      assert shorter[..|l2|] == l2;
      CandidatesPrefix(shorter, |l2|, kind, plan);
    }
  }

  /** Under DeclaredOnly only the initial type is listed, and only its members are visited. */
  lemma DeclaredOnlyStaysOnInitialType(chain: seq<TypeInfo>, kind: MemberKind, objectId: int, plan: Plan,
                                       callback: Member -> bool, stopped: bool,
                                       listed: seq<TypeInfo>, visited: seq<Member>)
    requires |chain| > 0
    requires IsWalk(Scope(chain, kind, true, objectId), kind, plan, callback, stopped, listed, visited)
    ensures listed == [] || listed == [chain[0]]
    ensures forall x :: x in visited ==> x in chain[0].Declared(kind)
  {
    VisitedFromListed(Scope(chain, kind, true, objectId), kind, plan, callback, stopped, listed, visited);
  }

  /**
   * A field walk never lists the type `objectId`, so its fields are never
   * visited, and a field walk starting there lists and visits nothing.
   */
  lemma ObjectFieldsHidden(chain: seq<TypeInfo>, loopOnce: bool, objectId: int, plan: Plan,
                           callback: Member -> bool, stopped: bool,
                           listed: seq<TypeInfo>, visited: seq<Member>)
    requires |chain| > 0
    requires IsWalk(Scope(chain, Field, loopOnce, objectId), Field, plan, callback, stopped, listed, visited)
    ensures forall t :: t in listed ==> t.id != objectId
    ensures forall x :: x in visited ==> exists t :: t in listed && t.id != objectId && x in t.fields
    ensures chain[0].id == objectId ==> listed == [] && visited == []
  {
    var scope := Scope(chain, Field, loopOnce, objectId);
    assert forall t :: t in listed ==> t.id != objectId by {
      forall t | t in listed ensures t.id != objectId {
        var j :| 0 <= j < |listed| && listed[j] == t;
        assert scope[j] == t;
      }
    }
    VisitedFromListed(scope, Field, plan, callback, stopped, listed, visited);
    forall x | x in visited ensures exists t :: t in listed && t.id != objectId && x in t.fields {
      var t :| t in listed && x in t.Declared(Field);
      assert t.id != objectId && x in t.fields;
    }
    if chain[0].id == objectId {
      assert |scope| == 0;
    }
  }

  /** A prefix of a prefix is a prefix. */
  lemma PrefixOfPrefix<T>(a: seq<T>, b: seq<T>, c: seq<T>)
    requires |a| <= |b| && a == b[..|a|] && |b| <= |c| && b == c[..|b|]
    ensures a == c[..|a|]
  {
  }

  /** A prefix stays a prefix behind a common head. */
  lemma PrefixAfter<T>(a: seq<T>, b: seq<T>, c: seq<T>)
    requires |b| <= |c| && b == c[..|b|]
    ensures a + b == (a + c)[..|a| + |b|]
  {
  }

  /** Stopping after the first `j` declared members of a type leaves a prefix of what finishing it offers. */
  lemma StopInsideType(before: seq<Member>, members: seq<Member>, j: nat, plan: Plan)
    requires j <= |members|
    ensures |before + Filter(members[..j], plan)| <= |before + Filter(members, plan)|
    ensures before + Filter(members[..j], plan) == (before + Filter(members, plan))[..|before + Filter(members[..j], plan)|]
  {
    FilterPrefix(members, j, plan);
    PrefixAfter(before, Filter(members[..j], plan), Filter(members, plan));
  }

  /** Stopping after the first `j` declared members of `scope[k]` leaves a prefix of all candidates. */
  lemma StopPrefix(scope: seq<TypeInfo>, k: nat, kind: MemberKind, plan: Plan, j: nat, visited: seq<Member>)
    requires k < |scope| && j <= |scope[k].Declared(kind)|
    requires visited == Candidates(scope[..k], kind, plan) + Filter(scope[k].Declared(kind)[..j], plan)
    ensures |visited| <= |Candidates(scope[..k + 1], kind, plan)|
    ensures |visited| <= |Candidates(scope, kind, plan)|
    ensures visited == Candidates(scope, kind, plan)[..|visited|]
  {
    CandidatesStep(scope, k, kind, plan);
    StopInsideType(Candidates(scope[..k], kind, plan), scope[k].Declared(kind), j, plan);
    CandidatesPrefix(scope, k + 1, kind, plan);
    PrefixOfPrefix(visited, Candidates(scope[..k + 1], kind, plan), Candidates(scope, kind, plan));
  }

  /**
   * A callback answering false on a member of `scope[k]`, after offering the
   * first `j` declared members of that type, ends a walk that satisfies `IsWalk`.
   */
  lemma StoppedWalk(scope: seq<TypeInfo>, k: nat, kind: MemberKind, plan: Plan, callback: Member -> bool,
                    j: nat, visited: seq<Member>)
    requires k < |scope| && j <= |scope[k].Declared(kind)|
    requires visited == Candidates(scope[..k], kind, plan) + Filter(scope[k].Declared(kind)[..j], plan)
    requires |Candidates(scope[..k], kind, plan)| < |visited|
    requires !callback(visited[|visited| - 1])
    requires forall i :: 0 <= i < |visited| - 1 ==> callback(visited[i])
    ensures IsWalk(scope, kind, plan, callback, true, scope[..k + 1], visited)
  {
    StopPrefix(scope, k, kind, plan, j, visited);
    var listed := scope[..k + 1];
    assert listed[..k] == scope[..k];
    assert |listed| <= |scope| && listed == scope[..|listed|];
    assert 0 < |listed| &&
      |Candidates(listed[..|listed| - 1], kind, plan)| < |visited| <= |Candidates(listed, kind, plan)|;
  }

  /** A walk that listed every type in scope and was never stopped satisfies `IsWalk`. */
  lemma FinishedWalk(scope: seq<TypeInfo>, kind: MemberKind, plan: Plan, callback: Member -> bool,
                     visited: seq<Member>)
    requires visited == Candidates(scope, kind, plan)
    requires forall i :: 0 <= i < |visited| ==> callback(visited[i])
    ensures IsWalk(scope, kind, plan, callback, false, scope, visited)
  {
  }

  /**
   * The `foreach` over one type's declared members: offers each matching
   * member to the callback in order and stops at the first refusal. `j` is
   * the number of declared members looked at.
   */
  method OfferDeclared(members: seq<Member>, plan: Plan, callback: Member -> bool)
    returns (stopped: bool, j: nat, offered: seq<Member>)
    ensures j <= |members| && offered == Filter(members[..j], plan)
    ensures forall i :: 0 <= i < |offered| - 1 ==> callback(offered[i])
    ensures stopped <==> |offered| > 0 && !callback(offered[|offered| - 1])
    ensures !stopped ==> j == |members|
  {
    offered := [];
    j := 0;
    while j < |members|
      invariant j <= |members| && offered == Filter(members[..j], plan)
      invariant forall i :: 0 <= i < |offered| ==> callback(offered[i])
    {
      var m := members[j];
      FilterStep(members, j, plan);
      j := j + 1;
      if plan.Matches(m) {
        offered := offered + [m];
        if !callback(m) {
          return true, j, offered;
        }
      }
    }
    stopped := false;
  }

  /** No type in `types` has the identity `id`. */
  ghost predicate NoneWith(types: seq<TypeInfo>, id: int) {
    forall j :: 0 <= j < |types| ==> types[j].id != id
  }

  /** The callback accepted every member of `s`. */
  ghost predicate Accepted(s: seq<Member>, callback: Member -> bool) {
    forall i :: 0 <= i < |s| ==> callback(s[i])
  }

  /** Offering `b` after an accepted `a`: only `b`'s last member can have been refused. */
  lemma AcceptedConcat(a: seq<Member>, b: seq<Member>, callback: Member -> bool)
    requires Accepted(a, callback)
    requires forall i :: 0 <= i < |b| - 1 ==> callback(b[i])
    ensures forall i :: 0 <= i < |a + b| - 1 ==> callback((a + b)[i])
    ensures 0 < |b| ==> (a + b)[|a + b| - 1] == b[|b| - 1]
    ensures (|b| == 0 || callback(b[|b| - 1])) ==> Accepted(a + b, callback)
  {
    forall i | 0 <= i < |a + b| - 1 ensures callback((a + b)[i]) {
      if i < |a| {
        assert (a + b)[i] == a[i];
      } else {
        assert (a + b)[i] == b[i - |a|];
      }
    }
  }

  /** A chain whose first `k + 1` types the walk may list reaches at least that far in scope. */
  lemma ScopeCovers(chain: seq<TypeInfo>, kind: MemberKind, loopOnce: bool, objectId: int, k: nat)
    requires k < |chain| && (loopOnce ==> k == 0)
    requires kind == Field ==> NoneWith(chain[..k + 1], objectId)
    ensures k < |Scope(chain, kind, loopOnce, objectId)|
  {
    var n := |Scope(chain, kind, loopOnce, objectId)|;
  }

  /** Where the walk ends without a stop: the types it listed are the whole scope. */
  lemma ScopeEndsAt(chain: seq<TypeInfo>, kind: MemberKind, loopOnce: bool, objectId: int, n: nat)
    requires 0 < |chain| && n <= |chain| && (loopOnce ==> n <= 1)
    requires kind == Field ==> NoneWith(chain[..n], objectId)
    requires n == |chain| || (loopOnce && n == 1) || (kind == Field && chain[n].id == objectId)
    ensures Scope(chain, kind, loopOnce, objectId) == chain[..n]
  {
    var s := Scope(chain, kind, loopOnce, objectId);
  }

  /** A walk that stopped inside `chain[k]` after `j` of its declared members. */
  lemma StopAt(chain: seq<TypeInfo>, kind: MemberKind, plan: Plan, objectId: int, callback: Member -> bool,
               k: nat, j: nat, stopped: bool, listed: seq<TypeInfo>, visited: seq<Member>)
    requires k < |chain| && (plan.loopOnce ==> k == 0)
    requires stopped && listed == chain[..k + 1]
    requires kind == Field ==> NoneWith(chain[..k + 1], objectId)
    requires j <= |chain[k].Declared(kind)|
    requires visited == Candidates(chain[..k], kind, plan) + Filter(chain[k].Declared(kind)[..j], plan)
    requires |Candidates(chain[..k], kind, plan)| < |visited|
    requires !callback(visited[|visited| - 1])
    requires forall i :: 0 <= i < |visited| - 1 ==> callback(visited[i])
    ensures IsWalk(Scope(chain, kind, plan.loopOnce, objectId), kind, plan, callback, stopped, listed, visited)
  {
    var scope := Scope(chain, kind, plan.loopOnce, objectId);
    ScopeCovers(chain, kind, plan.loopOnce, objectId, k);
    assert scope[..k] == chain[..k];
    assert scope[k] == chain[k];
    assert scope[..k + 1] == chain[..k + 1];
    StoppedWalk(scope, k, kind, plan, callback, j, visited);
  }

  /** A walk that listed the first `n` types of the chain and then ended without a stop. */
  lemma FinishedAt(chain: seq<TypeInfo>, kind: MemberKind, plan: Plan, objectId: int, callback: Member -> bool,
                   n: nat, stopped: bool, listed: seq<TypeInfo>, visited: seq<Member>)
    requires 0 < |chain| && n <= |chain| && (plan.loopOnce ==> n <= 1)
    requires !stopped && listed == chain[..n]
    requires kind == Field ==> NoneWith(chain[..n], objectId)
    requires n == |chain| || (plan.loopOnce && n == 1) || (kind == Field && chain[n].id == objectId)
    requires visited == Candidates(chain[..n], kind, plan)
    requires Accepted(visited, callback)
    ensures IsWalk(Scope(chain, kind, plan.loopOnce, objectId), kind, plan, callback, stopped, listed, visited)
  {
    ScopeEndsAt(chain, kind, plan.loopOnce, objectId, n);
    FinishedWalk(chain[..n], kind, plan, callback, visited);
  }

  /** Listing `chain[k]` after `chain[..k]` keeps the listed types clear of the field walk's `objectId`. */
  lemma ListOne(chain: seq<TypeInfo>, kind: MemberKind, objectId: int, k: nat, listed: seq<TypeInfo>)
    requires k < |chain| && listed == chain[..k]
    requires kind == Field ==> NoneWith(listed, objectId) && chain[k].id != objectId
    ensures listed + [chain[k]] == chain[..k + 1]
    ensures kind == Field ==> NoneWith(chain[..k + 1], objectId)
  {
    assert listed + [chain[k]] == chain[..k + 1];
    if kind == Field {
      forall i | 0 <= i < k + 1 ensures (listed + [chain[k]])[i].id != objectId {
        if i < k {
          assert (listed + [chain[k]])[i] == listed[i];
        }
      }
    }
  }

  /**
   * Where the walk stands before it looks at `chain[k]`: it has listed the
   * types before it, none of them the field walk's `objectId`, and handed the
   * callback all their matching members, every one accepted.
   */
  ghost predicate Walking(chain: seq<TypeInfo>, kind: MemberKind, plan: Plan, objectId: int, callback: Member -> bool,
                          k: nat, listed: seq<TypeInfo>, visited: seq<Member>)
  {
    && k < |chain| && (plan.loopOnce ==> k == 0)
    && listed == chain[..k]
    && (kind == Field ==> NoneWith(listed, objectId))
    && visited == Candidates(listed, kind, plan)
    && Accepted(visited, callback)
  }

  /** A field walk that reaches the type `objectId` ends there, having listed only the types before it. */
  lemma AtObject(chain: seq<TypeInfo>, kind: MemberKind, plan: Plan, objectId: int, callback: Member -> bool,
                 k: nat, listed: seq<TypeInfo>, visited: seq<Member>)
    requires Walking(chain, kind, plan, objectId, callback, k, listed, visited)
    requires kind == Field && chain[k].id == objectId
    ensures IsWalk(Scope(chain, kind, plan.loopOnce, objectId), kind, plan, callback, false, listed, visited)
  {
    FinishedAt(chain, kind, plan, objectId, callback, k, false, listed, visited);
  }

  /** A refusal during the `foreach` over `chain[k]` ends the walk there. */
  lemma StopInType(chain: seq<TypeInfo>, kind: MemberKind, plan: Plan, objectId: int, callback: Member -> bool,
                   k: nat, listed: seq<TypeInfo>, visited: seq<Member>, j: nat, offered: seq<Member>)
    requires Walking(chain, kind, plan, objectId, callback, k, listed, visited)
    requires kind == Field ==> chain[k].id != objectId
    requires j <= |chain[k].Declared(kind)| && offered == Filter(chain[k].Declared(kind)[..j], plan)
    requires forall i :: 0 <= i < |offered| - 1 ==> callback(offered[i])
    requires |offered| > 0 && !callback(offered[|offered| - 1])
    ensures IsWalk(Scope(chain, kind, plan.loopOnce, objectId), kind, plan, callback, true,
                   listed + [chain[k]], visited + offered)
  {
    ListOne(chain, kind, objectId, k, listed);
    AcceptedConcat(visited, offered, callback);
    StopAt(chain, kind, plan, objectId, callback, k, j, true, listed + [chain[k]], visited + offered);
  }

  /** A `foreach` over `chain[k]` that runs to its end adds the type and all its matching members. */
  lemma CompleteType(chain: seq<TypeInfo>, kind: MemberKind, plan: Plan, objectId: int, callback: Member -> bool,
                     k: nat, listed: seq<TypeInfo>, visited: seq<Member>, offered: seq<Member>)
    requires Walking(chain, kind, plan, objectId, callback, k, listed, visited)
    requires kind == Field ==> chain[k].id != objectId
    requires offered == Filter(chain[k].Declared(kind), plan)
    requires forall i :: 0 <= i < |offered| - 1 ==> callback(offered[i])
    requires |offered| == 0 || callback(offered[|offered| - 1])
    ensures listed + [chain[k]] == chain[..k + 1]
    ensures kind == Field ==> NoneWith(chain[..k + 1], objectId)
    ensures visited + offered == Candidates(chain[..k + 1], kind, plan)
    ensures Accepted(visited + offered, callback)
  {
    ListOne(chain, kind, objectId, k, listed);
    AcceptedConcat(visited, offered, callback);
    CandidatesStep(chain, k, kind, plan);
  }

  /** Without a refusal, a declared-only walk or one at the root type ends after `chain[k]`. */
  lemma FinishAfterType(chain: seq<TypeInfo>, kind: MemberKind, plan: Plan, objectId: int, callback: Member -> bool,
                        k: nat, listed: seq<TypeInfo>, visited: seq<Member>, offered: seq<Member>)
    requires Walking(chain, kind, plan, objectId, callback, k, listed, visited)
    requires kind == Field ==> chain[k].id != objectId
    requires offered == Filter(chain[k].Declared(kind), plan)
    requires forall i :: 0 <= i < |offered| - 1 ==> callback(offered[i])
    requires |offered| == 0 || callback(offered[|offered| - 1])
    requires plan.loopOnce || k + 1 == |chain|
    ensures IsWalk(Scope(chain, kind, plan.loopOnce, objectId), kind, plan, callback, false,
                   listed + [chain[k]], visited + offered)
  {
    CompleteType(chain, kind, plan, objectId, callback, k, listed, visited, offered);
    FinishedAt(chain, kind, plan, objectId, callback, k + 1, false, listed + [chain[k]], visited + offered);
  }

  /** Without a refusal, a walk that is neither declared-only nor at the root moves on to `chain[k + 1]`. */
  lemma MoveToBase(chain: seq<TypeInfo>, kind: MemberKind, plan: Plan, objectId: int, callback: Member -> bool,
                   k: nat, listed: seq<TypeInfo>, visited: seq<Member>, offered: seq<Member>)
    requires Walking(chain, kind, plan, objectId, callback, k, listed, visited)
    requires kind == Field ==> chain[k].id != objectId
    requires offered == Filter(chain[k].Declared(kind), plan)
    requires forall i :: 0 <= i < |offered| - 1 ==> callback(offered[i])
    requires |offered| == 0 || callback(offered[|offered| - 1])
    requires !plan.loopOnce && k + 1 < |chain|
    ensures Walking(chain, kind, plan, objectId, callback, k + 1, listed + [chain[k]], visited + offered)
  {
    CompleteType(chain, kind, plan, objectId, callback, k, listed, visited, offered);
  }

  /**
   * One round of the walk's loop: the field walk's check for `objectId`, the
   * `foreach` over the declared members of `chain[k]`, then the move to the
   * base type unless the walk is declared-only or at the root. `done` says
   * the walk is over, and then the traces satisfy `IsWalk`.
   */
  method VisitType(plan: Plan, chain: seq<TypeInfo>, kind: MemberKind, objectId: int, callback: Member -> bool,
                   k: nat, listed: seq<TypeInfo>, visited: seq<Member>)
    returns (done: bool, stopped: bool, nextListed: seq<TypeInfo>, nextVisited: seq<Member>)
    requires Walking(chain, kind, plan, objectId, callback, k, listed, visited)
    ensures done ==>
      IsWalk(Scope(chain, kind, plan.loopOnce, objectId), kind, plan, callback, stopped, nextListed, nextVisited)
    ensures !done ==> Walking(chain, kind, plan, objectId, callback, k + 1, nextListed, nextVisited)
  {
    if kind == Field && chain[k].id == objectId {
      AtObject(chain, kind, plan, objectId, callback, k, listed, visited);
      done, stopped, nextListed, nextVisited := true, false, listed, visited;
      return;
    }
    var members := chain[k].Declared(kind);
    var stop, j, offered := OfferDeclared(members, plan, callback);
    if stop {
      StopInType(chain, kind, plan, objectId, callback, k, listed, visited, j, offered);
    } else {
      assert members[..j] == members;
      if plan.loopOnce || k + 1 == |chain| {
        FinishAfterType(chain, kind, plan, objectId, callback, k, listed, visited, offered);
      } else {
        MoveToBase(chain, kind, plan, objectId, callback, k, listed, visited, offered);
      }
    }
    done := stop || plan.loopOnce || k + 1 == |chain|;
    stopped, nextListed, nextVisited := stop, listed + [chain[k]], visited + offered;
  }

  /**
   * `RunConstructors`, `RunMethods` and `RunFields`: the three loops differ
   * only in which declared members they fetch and in the check, for fields,
   * that stops before the type `objectId`.
   */
  method Walk(plan: Plan, chain: seq<TypeInfo>, kind: MemberKind, objectId: int, callback: Member -> bool)
    returns (stopped: bool, listed: seq<TypeInfo>, visited: seq<Member>)
    requires |chain| > 0
    ensures IsWalk(Scope(chain, kind, plan.loopOnce, objectId), kind, plan, callback, stopped, listed, visited)
  {
    listed, visited := [], [];
    var k := 0;
    while true
      invariant Walking(chain, kind, plan, objectId, callback, k, listed, visited)
      decreases |chain| - k
    {
      var done;
      done, stopped, listed, visited := VisitType(plan, chain, kind, objectId, callback, k, listed, visited);
      if done {
        return;
      }
      k := k + 1;
    }
  }

  /** Clearing the bits of `axis` that `flags` carries clears the whole axis. */
  lemma ClearAxis(flags: bv32, axis: bv32)
    ensures flags & !(flags & axis) == flags & !axis
  {
  }

  /**
   * The flag compilation at the head of `Run`, as the source performs it:
   * each axis is checked for emptiness, turned into mask bits and cleared,
   * and any bit left at the end is refused.
   */
  method CompileFlags(flags: bv32) returns (compiled: Compiled)
    ensures compiled == Compile(flags)
  {
    var modifierMask: bv32 := 0;
    var modifierValue: bv32 := 0;
    var bindingAttr := flags;

    var chk := bindingAttr & (Public | NonPublic);
    if chk != Public | NonPublic {
      if chk == 0 {
        return MatchesNothing;
      }
      // internal members are made public by the host, so Public and
      // NonPublic cannot be told apart and add nothing to the mask
    }
    bindingAttr := bindingAttr & !chk;
    ClearAxis(flags, Public | NonPublic);

    chk := bindingAttr & (Static | Instance);
    assert chk == flags & (Static | Instance);
    if chk != Static | Instance {
      if chk == 0 {
        return MatchesNothing;
      }
      modifierMask := modifierMask | STATIC;
      if chk == Static {
        modifierValue := modifierValue | STATIC;
      }
    }
    bindingAttr := bindingAttr & !chk;

    var loopOnce := false;
    if bindingAttr & DeclaredOnly != 0 {
      loopOnce := true;
      bindingAttr := bindingAttr & !DeclaredOnly;
    }

    if bindingAttr != 0 {
      return Unsupported;
    }
    compiled := Ready(Plan(modifierMask, modifierValue, loopOnce));
  }

  /** How a call to `Run` ended. */
  datatype Outcome =
    | EmptyQuery            // a flag axis was empty: returned before any listing
    | Finished              // walked every type in scope
    | StoppedByCallback     // the callback answered false
    | Threw(error: Error)

  /**
   * `Run(bindingAttr, initialType, memberType, callback)`. `chain` is the
   * initial type followed by its `BaseType` links up to the root; `objectId`
   * is the identity of `typeof(Object)`. Returns the outcome, the types whose
   * declared members were fetched and the members handed to the callback.
   */
  method Run(flags: bv32, chain: seq<TypeInfo>, objectId: int, memberType: int, callback: Member -> bool)
    returns (outcome: Outcome, listed: seq<TypeInfo>, visited: seq<Member>)
    requires |chain| > 0
    ensures Compile(flags).MatchesNothing? ==> outcome == EmptyQuery && listed == [] && visited == []
    ensures Compile(flags).Unsupported? ==> outcome == Threw(PlatformNotSupported) && listed == [] && visited == []
    ensures Compile(flags).Ready? && KindOf(memberType).Err? ==>
      outcome == Threw(Argument) && listed == [] && visited == []
    ensures Compile(flags).Ready? && KindOf(memberType).Ok? ==>
      (outcome == Finished || outcome == StoppedByCallback) &&
      var kind := KindOf(memberType).value;
      var plan := Compile(flags).plan;
      IsWalk(Scope(chain, kind, plan.loopOnce, objectId), kind, plan, callback,
             outcome == StoppedByCallback, listed, visited)
  {
    listed, visited := [], [];
    var compiled := CompileFlags(flags);
    if compiled.MatchesNothing? {
      return EmptyQuery, listed, visited;
    } else if compiled.Unsupported? {
      return Threw(PlatformNotSupported), listed, visited;
    }
    var kind: MemberKind;
    if memberType == ConstructorType {
      kind := Constructor;
    } else if memberType == MethodType {
      kind := Method;
    } else if memberType == FieldType {
      kind := Field;
    } else {
      return Threw(Argument), listed, visited;
    }
    var stopped;
    stopped, listed, visited := Walk(compiled.plan, chain, kind, objectId, callback);
    outcome := if stopped then StoppedByCallback else Finished;
  }
}
