/**
 * The payloads and expectations of the repository's functional tests, and a
 * few further concrete requests, as statements about the model.
 */
module Scenarios {
  import opened BitbucketIp
  import opened Webhook

  /** A push of one change to the named branch. */
  function PushTo(branch: string): Push {
    Push(Some([Change(Some(Ref(Some(branch))))]))
  }

  /** The test payload: a git push of master to test/test. */
  const Payload: Body := Obj(Some(Repository(Some("git"), Some("test/test"))), Some(PushTo("master")))

  /** The same push from a Mercurial repository. */
  const HgPayload: Body := Obj(Some(Repository(Some("hg"), Some("test/test"))), Some(PushTo("master")))

  /** A repository event that is not a push. */
  const OtherPayload: Body := Obj(Some(Repository(Some("git"), Some("test/test"))), None)

  /**
   * A JSON array body. It passes `instanceof Object`; its `push` is the
   * array method of that name (truthy) and it has no `repository`.
   */
  const ArrayBody: Body := Obj(None, Some(Push(None)))

  /** No JSON parser: the body is undefined, and the error mentions JSON. */
  lemma NoJsonParser(ip: string)
    ensures Classify(BitbucketHook("", "", Some(true)), NotObject, ip) == JsonParserError
    ensures Contains(JsonErrorMessage, "JSON")
  {
    assert OccursAt(JsonErrorMessage, "JSON", 11);
  }

  /** The request comes from the loopback address and the check is on. */
  lemma IpMismatch()
    ensures Classify(BitbucketHook("test/test", "master", None), Payload, "127.0.0.1") == SkipRoute
  {
  }

  lemma IpBypass(ip: string)
    ensures Classify(BitbucketHook("test/test", "master", Some(true)), Payload, ip) == FullMatch
    ensures Effects(FullMatch) == [End("200 OK"), Next(NoArg)]
  {
  }

  /** The address forwarded by the loopback proxy is in the allow-listed range. */
  lemma IpMatch()
    ensures Test("104.192.143.1")
    ensures Classify(BitbucketHook("test/test", "master", None), Payload, "104.192.143.1") == FullMatch
  {
  }

  lemma EventMismatch(ip: string)
    ensures Classify(BitbucketHook("test/test", "master", Some(true)), OtherPayload, ip) == SkipRoute
  {
  }

  lemma ScmMismatch(ip: string)
    ensures Classify(BitbucketHook("test/test", "master", Some(true)), HgPayload, ip) == SkipRoute
  {
  }

  lemma RepositoryNameMismatch(ip: string)
    ensures Classify(BitbucketHook("test/other", "master", Some(true)), Payload, ip) == SkipRoute
  {
  }

  lemma BranchNotFound(ip: string)
    ensures Classify(BitbucketHook("test/test", "dev", Some(true)), Payload, ip) == RepositoryMatchOnly
    ensures Effects(RepositoryMatchOnly) == [End("200 Repository Match")]
  {
  }

  /** Another public address, with the check on. */
  lemma PublicAddress()
    ensures Classify(BitbucketHook("test/test", "master", Some(false)), Payload, "8.8.8.8") == SkipRoute
  {
  }

  /** Names are compared exactly: no case folding and no trimming. */
  lemma ExactComparison(ip: string)
    ensures Classify(BitbucketHook("Test/Test", "master", Some(true)), Payload, ip) == SkipRoute
    ensures Classify(BitbucketHook("test/test", "Master", Some(true)), Payload, ip) == RepositoryMatchOnly
    ensures Classify(BitbucketHook("test/test", "master ", Some(true)), Payload, ip) == RepositoryMatchOnly
  {
  }

  /** An array body is not a schema error: it throws when `repository.scm` is read. */
  lemma ArrayBodyThrows(hook: Hook, ip: string)
    requires AddressAllowed(hook, ip)
    ensures Classify(hook, ArrayBody, ip) == Fault
    ensures Effects(Classify(hook, ArrayBody, ip)) == []
  {
  }

  /** A matching change after one without `new` is never reached: the scan throws first. */
  lemma FaultBeforeMatch(ip: string)
    ensures var body := Obj(Some(Repository(Some("git"), Some("test/test"))),
                           Some(Push(Some([Change(None), Change(Some(Ref(Some("master"))))]))));
      Classify(BitbucketHook("test/test", "master", Some(true)), body, ip) == Fault
  {
  }

  /** A change without `new` after the match is never read. */
  lemma MatchBeforeFault(ip: string)
    ensures var body := Obj(Some(Repository(Some("git"), Some("test/test"))),
                           Some(Push(Some([Change(Some(Ref(Some("master")))), Change(None)]))));
      Classify(BitbucketHook("test/test", "master", Some(true)), body, ip) == FullMatch
  {
  }

  /** Leading zeros: two-digit "05" is accepted, three-digit "005" is not. */
  lemma LeadingZeroOctets()
    ensures Test("104.192.143.05")
    ensures !Test("104.192.143.005")
    ensures !Test("104.192.143.256")
    ensures !Test("104.192.143.1\n")
  {
    OctetExact("005");
    NoTrailingExtra("104.192.143.1", '\n');
  }
}
