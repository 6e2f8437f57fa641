/**
 * The Bitbucket webhook middleware: the ordered, short-circuiting guard chain
 * that classifies one request from its parsed body, the client address and
 * the configuration captured by the factory, the response and continuation
 * calls each outcome produces, and the handler, step by step (with the early
 * return out of the branch scan).
 */
module Webhook {
  import opened BitbucketIp

  datatype Option<+T> = None | Some(value: T)

  /**
   * The parsed request body as the middleware sees it through property reads.
   * A field is None when reading it yields something that cannot be used the
   * way the code uses it; which "something" that is differs per field and is
   * said at each one.
   */

  /**
   * `change.new`. name is None when `new.name` is absent or not a string (it
   * is then never strictly equal to the configured branch).
   */
  datatype Ref = Ref(name: Option<string>)

  /**
   * One element of `push.changes`. newRef (the `new` member) is None when the
   * element is null or undefined or its `new` is null or undefined: reading
   * `.name` through it throws a TypeError.
   */
  datatype Change = Change(newRef: Option<Ref>)

  /**
   * A truthy `push`. changes is None when `push.changes` is not iterable
   * (absent, null, a number, a plain object), so the `for...of` throws.
   */
  datatype Push = Push(changes: Option<seq<Change>>)

  /**
   * `repository`, when it is neither null nor undefined. scm and fullName are
   * None when absent or not strings.
   */
  datatype Repository = Repository(scm: Option<string>, fullName: Option<string>)

  /**
   * NotObject: anything for which `body instanceof Object` is false (undefined
   * when no JSON parser ran, null, strings, numbers, booleans).
   * Obj: objects and arrays; repository is None when null or undefined, push
   * is None when falsy.
   */
  datatype Body =
    | NotObject
    | Obj(repository: Option<Repository>, push: Option<Push>)

  /**
   * The configuration the factory BitbucketHook(name, branch, noIpCheck)
   * captures in the closure it returns; noIpCheck None is the omitted
   * argument.
   */
  datatype Hook = BitbucketHook(name: string, branch: string, noIpCheck: Option<bool>)

  /** The one classification each request receives. */
  datatype Outcome =
    | JsonParserError      // body not an object
    | SkipRoute            // not a webhook call this route handles
    | FullMatch            // repository and branch matched
    | RepositoryMatchOnly  // repository matched, no pushed change for the branch
    | Fault                // a TypeError thrown by an unguarded property read

  /** What the middleware does to the response and the continuation, in order. */
  datatype NextArg = NoArg | Route | Error(message: string)
  datatype Action = Status(code: nat) | End(text: string) | Next(arg: NextArg)

  const JsonErrorText: string := "500 JSON Parser Error"
  const JsonErrorMessage: string := "Please use JSON parser"
  const OkText: string := "200 OK"
  const RepositoryMatchText: string := "200 Repository Match"

  /** The address guard is passed: bypassed by a literal true, or the allow-list accepts ip. */
  predicate AddressAllowed(hook: Hook, ip: string)
    ensures AddressAllowed(hook, ip) && hook.noIpCheck != Some(true) ==>
      |Prefix| + 1 <= |ip| <= |Prefix| + 3 && ip[..|Prefix|] == Prefix
  {
    hook.noIpCheck == Some(true) || Test(ip)
  }

  /**
   * `change.new.name === branch`, for a change whose `new` can be read; a
   * missing or non-string name never matches.
   */
  predicate BranchMatches(c: Change, branch: string)
    ensures BranchMatches(c, branch) ==> c.newRef.Some?
    ensures c.newRef.Some? && c.newRef.value.name.None? ==> !BranchMatches(c, branch)
  {
    c.newRef.Some? && c.newRef.value.name == Some(branch)
  }

  /** The `for...of` over `push.changes`: the first matching change wins. */
  function Scan(changes: seq<Change>, branch: string): (r: Outcome)
    ensures r == FullMatch || r == RepositoryMatchOnly || r == Fault
    decreases |changes|
  {
    if |changes| == 0 then RepositoryMatchOnly
    else if changes[0].newRef.None? then Fault
    else if changes[0].newRef.value.name == Some(branch) then FullMatch
    else Scan(changes[1..], branch)
  }

  /** The guard chain of the middleware, as a function of its inputs. */
  function Classify(hook: Hook, body: Body, ip: string): (r: Outcome)
    ensures r == JsonParserError <==> body.NotObject?
    ensures r == FullMatch || r == RepositoryMatchOnly ==>
      ShapeMatches(hook, body) && AddressAllowed(hook, ip) && body.push.value.changes.Some?
    ensures body.Obj? && !AddressAllowed(hook, ip) ==> r == SkipRoute
  {
    if body.NotObject? then JsonParserError
    else if !AddressAllowed(hook, ip) then SkipRoute
    else if body.push.None? then SkipRoute
    else if body.repository.None? then Fault
    else if body.repository.value.scm != Some("git") then SkipRoute
    else if body.repository.value.fullName != Some(hook.name) then SkipRoute
    else if body.push.value.changes.None? then Fault
    else Scan(body.push.value.changes.value, hook.branch)
  }

  /** The response writes and continuation calls that go with each outcome. */
  function Effects(o: Outcome): (r: seq<Action>)
    ensures r == [] <==> o == Fault
    ensures o != JsonParserError ==> forall i :: 0 <= i < |r| ==> !r[i].Status?
    ensures (|r| > 0 && r[|r| - 1].Next?) <==> (o == JsonParserError || o == SkipRoute || o == FullMatch)
  {
    match o
    case JsonParserError => [Status(500), End(JsonErrorText), Next(Error(JsonErrorMessage))]
    case SkipRoute => [Next(Route)]
    case FullMatch => [End(OkText), Next(NoArg)]
    case RepositoryMatchOnly => [End(RepositoryMatchText)]
    case Fault => []
  }

  /** The texts written with res.end, in order. */
  function Responses(trace: seq<Action>): seq<string> {
    if |trace| == 0 then []
    else (if trace[0].End? then [trace[0].text] else []) + Responses(trace[1..])
  }

  /** The arguments of the calls to next, in order. */
  function NextCalls(trace: seq<Action>): seq<NextArg> {
    if |trace| == 0 then []
    else (if trace[0].Next? then [trace[0].arg] else []) + NextCalls(trace[1..])
  }

  /** The status code the response carries: Express's default 200 unless set. */
  function StatusCode(trace: seq<Action>): nat {
    if |trace| == 0 then 200
    else if trace[|trace| - 1].Status? then trace[|trace| - 1].code
    else StatusCode(trace[..|trace| - 1])
  }

  predicate OccursAt(s: string, part: string, i: int) {
    0 <= i <= |s| - |part| && s[i..i + |part|] == part
  }

  ghost predicate Contains(s: string, part: string) {
    exists i :: OccursAt(s, part, i)
  }

  /**
   * The middleware itself. trace records res.status, res.end and next in the
   * order they are called; thrown says the body made a property read throw.
   */
  method Middleware(hook: Hook, body: Body, ip: string) returns (trace: seq<Action>, thrown: bool)
    ensures trace == Effects(Classify(hook, body, ip))
    ensures thrown <==> Classify(hook, body, ip) == Fault
  {
    trace, thrown := [], false;
    if !body.Obj? {
      trace := trace + [Status(500), End(JsonErrorText)];
      trace := trace + [Next(Error(JsonErrorMessage))];
      return;
    }
    if hook.noIpCheck != Some(true) && !Test(ip) {
      trace := trace + [Next(Route)];
      return;
    }
    if body.push.None? {
      trace := trace + [Next(Route)];
      return;
    }
    if body.repository.None? {
      // reading `scm` of an undefined repository
      thrown := true;
      return;
    }
    var repository := body.repository.value;
    if repository.scm != Some("git") || repository.fullName != Some(hook.name) {
      trace := trace + [Next(Route)];
      return;
    }
    if body.push.value.changes.None? {
      // iterating something that is not iterable
      thrown := true;
      return;
    }
    var changes := body.push.value.changes.value;
    var i := 0;
    while i < |changes|
      invariant 0 <= i <= |changes|
      invariant Scan(changes[i..], hook.branch) == Scan(changes, hook.branch)
      invariant trace == [] && !thrown
    {
      var change := changes[i];
      assert changes[i..][0] == change && changes[i..][1..] == changes[i + 1..];
      if change.newRef.None? {
        // reading `name` of an undefined `new`
        thrown := true;
        return;
      }
      if change.newRef.value.name == Some(hook.branch) {
        trace := trace + [End(OkText)];
        trace := trace + [Next(NoArg)];
        return;
      }
      i := i + 1;
    }
    trace := trace + [End(RepositoryMatchText)];
  }

  // ---------------------------------------------------------------------
  // The branch scan against a reference reading by indices

  /** Every change before k can be read and does not name the branch. */
  ghost predicate ReadableMisses(changes: seq<Change>, branch: string, k: int)
    requires 0 <= k <= |changes|
  {
    forall j :: 0 <= j < k ==> changes[j].newRef.Some? && !BranchMatches(changes[j], branch)
  }

  /** The scan ends in a full match exactly when some change names the branch before any unreadable one. */
  lemma {:induction false} ScanFullMatch(changes: seq<Change>, branch: string)
    ensures Scan(changes, branch) == FullMatch <==>
      exists k :: 0 <= k < |changes| && BranchMatches(changes[k], branch) && ReadableMisses(changes, branch, k)
    decreases |changes|
  {
    if |changes| > 0 {
      var tail := changes[1..];
      ScanFullMatch(tail, branch);
      if Scan(changes, branch) == FullMatch {
        if !BranchMatches(changes[0], branch) {
          var k :| 0 <= k < |tail| && BranchMatches(tail[k], branch) && ReadableMisses(tail, branch, k);
          assert BranchMatches(changes[k + 1], branch) && ReadableMisses(changes, branch, k + 1) by {
            forall j | 0 <= j < k + 1
              ensures changes[j].newRef.Some? && !BranchMatches(changes[j], branch)
            {
              if j > 0 { assert changes[j] == tail[j - 1]; }
            }
          }
        } else {
          assert ReadableMisses(changes, branch, 0);
        }
      }
      if exists k :: 0 <= k < |changes| && BranchMatches(changes[k], branch) && ReadableMisses(changes, branch, k) {
        var k :| 0 <= k < |changes| && BranchMatches(changes[k], branch) && ReadableMisses(changes, branch, k);
        if k > 0 {
          assert BranchMatches(tail[k - 1], branch) && ReadableMisses(tail, branch, k - 1) by {
            forall j | 0 <= j < k - 1
              ensures tail[j].newRef.Some? && !BranchMatches(tail[j], branch)
            {
              assert tail[j] == changes[j + 1];
            }
          }
        }
      }
    }
  }

  /** The scan throws exactly when an unreadable change comes before any change naming the branch. */
  lemma {:induction false} ScanFault(changes: seq<Change>, branch: string)
    ensures Scan(changes, branch) == Fault <==>
      exists k :: 0 <= k < |changes| && changes[k].newRef.None? && ReadableMisses(changes, branch, k)
    decreases |changes|
  {
    if |changes| > 0 {
      var tail := changes[1..];
      ScanFault(tail, branch);
      if Scan(changes, branch) == Fault {
        if changes[0].newRef.Some? {
          var k :| 0 <= k < |tail| && tail[k].newRef.None? && ReadableMisses(tail, branch, k);
          assert changes[k + 1].newRef.None? && ReadableMisses(changes, branch, k + 1) by {
            forall j | 0 <= j < k + 1
              ensures changes[j].newRef.Some? && !BranchMatches(changes[j], branch)
            {
              if j > 0 { assert changes[j] == tail[j - 1]; }
            }
          }
        } else {
          assert ReadableMisses(changes, branch, 0);
        }
      }
      if exists k :: 0 <= k < |changes| && changes[k].newRef.None? && ReadableMisses(changes, branch, k) {
        var k :| 0 <= k < |changes| && changes[k].newRef.None? && ReadableMisses(changes, branch, k);
        if k > 0 {
          assert tail[k - 1].newRef.None? && ReadableMisses(tail, branch, k - 1) by {
            forall j | 0 <= j < k - 1
              ensures tail[j].newRef.Some? && !BranchMatches(tail[j], branch)
            {
              assert tail[j] == changes[j + 1];
            }
          }
        }
      }
    }
  }

  /** The scan falls through exactly when every change can be read and none names the branch. */
  lemma {:induction false} ScanNoMatch(changes: seq<Change>, branch: string)
    ensures Scan(changes, branch) == RepositoryMatchOnly <==> ReadableMisses(changes, branch, |changes|)
    decreases |changes|
  {
    if |changes| > 0 {
      var tail := changes[1..];
      ScanNoMatch(tail, branch);
      if ReadableMisses(changes, branch, |changes|) {
        assert ReadableMisses(tail, branch, |tail|) by {
          forall j | 0 <= j < |tail|
            ensures tail[j].newRef.Some? && !BranchMatches(tail[j], branch)
          {
            assert tail[j] == changes[j + 1];
          }
        }
      }
      if Scan(changes, branch) == RepositoryMatchOnly {
        forall j | 0 <= j < |changes|
          ensures changes[j].newRef.Some? && !BranchMatches(changes[j], branch)
        {
          if j > 0 { assert changes[j] == tail[j - 1]; }
        }
      }
    }
  }

  /** The scan stops at the first matching change: what follows it is never read. */
  lemma {:induction false} ScanStopsAtFirstMatch(misses: seq<Change>, hit: Change, rest: seq<Change>, branch: string)
    requires ReadableMisses(misses, branch, |misses|)
    requires BranchMatches(hit, branch)
    ensures Scan(misses + [hit] + rest, branch) == FullMatch
    decreases |misses|
  {
    var all := misses + [hit] + rest;
    if |misses| == 0 {
      assert all[0] == hit;
    } else {
      assert all[0] == misses[0];
      assert all[1..] == misses[1..] + [hit] + rest;
      assert ReadableMisses(misses[1..], branch, |misses| - 1) by {
        forall j | 0 <= j < |misses| - 1
          ensures misses[1..][j].newRef.Some? && !BranchMatches(misses[1..][j], branch)
        {
          assert misses[1..][j] == misses[j + 1];
        }
      }
      ScanStopsAtFirstMatch(misses[1..], hit, rest, branch);
    }
  }

  // ---------------------------------------------------------------------
  // The guard chain

  /** The guards that precede the branch scan all let the request through. */
  predicate ShapeMatches(hook: Hook, body: Body) {
    && body.Obj?
    && body.push.Some?
    && body.repository.Some?
    && body.repository.value.scm == Some("git")
    && body.repository.value.fullName == Some(hook.name)
  }

  /**
   * The schema guard comes first: a body that is not an object always gets
   * the 500 response and an error whose message mentions JSON, whatever the
   * address and the configuration.
   */
  lemma SchemaGuardFirst(hook: Hook, body: Body, ip: string)
    requires body.NotObject?
    ensures Classify(hook, body, ip) == JsonParserError
    ensures var trace := Effects(Classify(hook, body, ip));
      && StatusCode(trace) == 500
      && Responses(trace) == [JsonErrorText]
      && |NextCalls(trace)| == 1 && NextCalls(trace)[0].Error?
      && Contains(NextCalls(trace)[0].message, "JSON")
  {
    var trace := Effects(JsonParserError);
    assert trace[..2][..1] == [Status(500)];
    assert StatusCode(trace) == 500;
    assert OccursAt(JsonErrorMessage, "JSON", 11);
  }

  /** Only a literal true bypasses the address guard; a rejected address then skips the route. */
  lemma AddressGuard(hook: Hook, body: Body, ip: string)
    requires body.Obj? && hook.noIpCheck != Some(true) && !Test(ip)
    ensures Classify(hook, body, ip) == SkipRoute
    ensures Effects(Classify(hook, body, ip)) == [Next(Route)]
  {
  }

  /** With the bypass on, the address plays no part in the outcome. */
  lemma BypassIgnoresAddress(hook: Hook, body: Body, ip1: string, ip2: string)
    requires hook.noIpCheck == Some(true)
    ensures Classify(hook, body, ip1) == Classify(hook, body, ip2)
  {
  }

  /** A flag other than true (false or omitted) behaves exactly like the omitted flag. */
  lemma OnlyTrueBypasses(hook: Hook, body: Body, ip: string)
    requires hook.noIpCheck != Some(true)
    ensures Classify(hook, body, ip) == Classify(hook.(noIpCheck := None), body, ip)
    ensures Classify(hook, body, ip) == Classify(hook.(noIpCheck := Some(false)), body, ip)
  {
  }

  /**
   * The event-shape guard: past the address guard, a missing push, an scm
   * other than exactly "git" or a full name other than exactly the configured
   * one skips the route.
   */
  lemma EventShapeGuard(hook: Hook, body: Body, ip: string)
    requires body.Obj? && AddressAllowed(hook, ip)
    requires || body.push.None?
             || (body.repository.Some? && body.repository.value.scm != Some("git"))
             || (body.repository.Some? && body.repository.value.fullName != Some(hook.name))
    ensures Classify(hook, body, ip) == SkipRoute
    ensures Effects(Classify(hook, body, ip)) == [Next(Route)]
  {
  }

  /** The repository is read only once push is known to be truthy, without a guard. */
  lemma MissingRepositoryThrows(hook: Hook, body: Body, ip: string)
    requires body.Obj? && AddressAllowed(hook, ip)
    ensures body.push.Some? && body.repository.None? ==> Classify(hook, body, ip) == Fault
    ensures body.push.None? ==> Classify(hook, body, ip) == SkipRoute
  {
  }

  /**
   * Full match: past the guards, the outcome is the "200 OK" response
   * followed by one argument-less next() exactly when a change names the
   * branch before any unreadable change.
   */
  lemma FullMatchCase(hook: Hook, body: Body, ip: string)
    requires ShapeMatches(hook, body) && AddressAllowed(hook, ip)
    requires body.push.value.changes.Some?
    ensures var changes := body.push.value.changes.value;
      Classify(hook, body, ip) == FullMatch <==>
        exists k :: 0 <= k < |changes| && BranchMatches(changes[k], hook.branch)
                    && ReadableMisses(changes, hook.branch, k)
    ensures Classify(hook, body, ip) == FullMatch ==>
      Effects(Classify(hook, body, ip)) == [End(OkText), Next(NoArg)]
  {
    ScanFullMatch(body.push.value.changes.value, hook.branch);
  }

  /**
   * Repository match only: past the guards, the outcome is the
   * "200 Repository Match" response with no call to next exactly when every
   * change can be read and none names the branch.
   */
  lemma RepositoryMatchCase(hook: Hook, body: Body, ip: string)
    requires ShapeMatches(hook, body) && AddressAllowed(hook, ip)
    requires body.push.value.changes.Some?
    ensures var changes := body.push.value.changes.value;
      Classify(hook, body, ip) == RepositoryMatchOnly <==>
        ReadableMisses(changes, hook.branch, |changes|)
    ensures Classify(hook, body, ip) == RepositoryMatchOnly ==>
      Responses(Effects(Classify(hook, body, ip))) == [RepositoryMatchText]
      && NextCalls(Effects(Classify(hook, body, ip))) == []
  {
    ScanNoMatch(body.push.value.changes.value, hook.branch);
    assert Responses([End(RepositoryMatchText)]) == [RepositoryMatchText];
  }

  /**
   * For a well-formed push (every change has a readable `new`) past the
   * guards there are only the two match outcomes, told apart by whether some
   * change names the branch.
   */
  lemma WellFormedPush(hook: Hook, body: Body, ip: string)
    requires ShapeMatches(hook, body) && AddressAllowed(hook, ip)
    requires body.push.value.changes.Some?
    requires var changes := body.push.value.changes.value;
      forall k :: 0 <= k < |changes| ==> changes[k].newRef.Some?
    ensures var changes := body.push.value.changes.value;
      Classify(hook, body, ip) ==
        if exists k :: 0 <= k < |changes| && BranchMatches(changes[k], hook.branch)
        then FullMatch else RepositoryMatchOnly
  {
    var changes := body.push.value.changes.value;
    ScanFault(changes, hook.branch);
    ScanNoMatch(changes, hook.branch);
    if exists k :: 0 <= k < |changes| && BranchMatches(changes[k], hook.branch) {
      var k :| 0 <= k < |changes| && BranchMatches(changes[k], hook.branch);
      assert !ReadableMisses(changes, hook.branch, |changes|);
    }
  }

  /** One step of Responses and NextCalls. */
  lemma TraceCons(a: Action, rest: seq<Action>)
    ensures Responses([a] + rest) == (if a.End? then [a.text] else []) + Responses(rest)
    ensures NextCalls([a] + rest) == (if a.Next? then [a.arg] else []) + NextCalls(rest)
  {
    assert ([a] + rest)[1..] == rest;
  }

  /**
   * On every path at most one response text is written, next is called at
   * most once, and when both happen the response comes first.
   */
  lemma AtMostOneResponseAndNext(o: Outcome)
    ensures |Responses(Effects(o))| <= 1
    ensures |NextCalls(Effects(o))| <= 1
    ensures forall i, j ::
      (0 <= i < |Effects(o)| && 0 <= j < |Effects(o)| && Effects(o)[i].Next? && Effects(o)[j].End?) ==> j < i
    ensures o == Fault <==> Effects(o) == []
  {
    var t := Effects(o);
    match o
    case JsonParserError =>
      var a, b, c := t[0], t[1], t[2];
      TraceCons(c, []);
      TraceCons(b, [c]);
      TraceCons(a, [b, c]);
      assert [c] + [] == [c] && [b] + [c] == [b, c] && [a] + [b, c] == t;
    case FullMatch =>
      var a, b := t[0], t[1];
      TraceCons(b, []);
      TraceCons(a, [b]);
      assert [b] + [] == [b] && [a] + [b] == t;
    case _ =>
  }
}
