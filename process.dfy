/** The decision logic of main.go: startup gating, the `-cidrs` flag, the
    cache-size adjustment, and the step that installs a reloaded policy. */
module Process {
  import opened Foreign
  import opened GoStrings
  import opened PolicyEngine
  import Lru

  /** The command-line flags the startup logic reads. */
  datatype Flags = Flags(version: bool, cacheSize: int, cidrs: string, certFile: string, keyFile: string)

  /** How `main` ends its startup. */
  datatype Startup =
    | ShowedVersion
    | TlsFailed
    | BadCidr(element: string)
    | PolicyFailed(err: PolicyError)
    | Serving   // installer, watchers and HTTP server started

  function Min(a: int, b: int): int { if a < b then a else b }
  function Max(a: int, b: int): int { if a < b then b else a }

  /** The adjustment as written: `min(53, max(200000, x))`. */
  function AdjustCacheSize(flag: int): (size: int)
    ensures size == 53
  {
    Min(53, Max(200000, flag))
  }

  /** The evidently intended adjustment: the flag clamped into [53, 200000]. */
  function ClampCacheSize(flag: int): (size: int)
    ensures 53 <= size <= 200000
    ensures 53 <= flag <= 200000 ==> size == flag
    ensures flag < 53 ==> size == 53
    ensures flag > 200000 ==> size == 200000
  {
    Max(53, Min(200000, flag))
  }

  /** The networks of the `-cidrs` list elements, or the first element that
      does not parse. */
  function ParseCidrs(list: seq<string>, lib: Lib): Result<seq<IPNet>>
  {
    if list == [] then Ok([])
    else
      match ParseCidrs(list[..|list| - 1], lib)
      case Err(bad) => Err(bad)
      case Ok(nets) =>
        match lib.parseCidr(list[|list| - 1])
        case None => Err(list[|list| - 1])
        case Some(net) => Ok(nets + [net])
  }

  /** Parsing succeeds iff every element parses; the networks are then those
      of the elements, in order. Otherwise the named element is the first
      that does not parse. */
  lemma {:induction false} ParseCidrsSpec(list: seq<string>, lib: Lib)
    ensures ParseCidrs(list, lib).Ok? <==> forall i :: 0 <= i < |list| ==> lib.parseCidr(list[i]).Some?
    ensures ParseCidrs(list, lib).Ok? ==>
      |ParseCidrs(list, lib).value| == |list| &&
      forall i :: 0 <= i < |list| ==> ParseCidrs(list, lib).value[i] == lib.parseCidr(list[i]).value
    ensures ParseCidrs(list, lib).Err? ==>
      exists k :: (0 <= k < |list| && list[k] == ParseCidrs(list, lib).error
        && lib.parseCidr(list[k]).None? && forall j :: 0 <= j < k ==> lib.parseCidr(list[j]).Some?)
  {
    if list != [] {
      var init := list[..|list| - 1];
      ParseCidrsSpec(init, lib);
      assert forall j :: 0 <= j < |init| ==> init[j] == list[j];
    }
  }

  /** Once a prefix has failed, the whole list fails on the same element. */
  lemma {:induction false} ParseCidrsPrefix(list: seq<string>, n: nat, lib: Lib)
    requires n <= |list| && ParseCidrs(list[..n], lib).Err?
    ensures ParseCidrs(list, lib) == ParseCidrs(list[..n], lib)
    decreases |list| - n
  {
    if n < |list| {
      var init := list[..|list| - 1];
      assert init[..n] == list[..n];
      ParseCidrsPrefix(init, n, lib);
    } else {
      assert list[..n] == list;
    }
  }

  /** The CIDR list a `-cidrs` value yields; no flag means no networks. */
  function Cidrs(flag: string, lib: Lib): Result<seq<IPNet>>
  {
    if flag == "" then Ok([]) else ParseCidrs(Split(flag, ','), lib)
  }

  /** How startup ends, given the flags, whether initTLS succeeds, and what
      loadPolicy returns for the policy file. */
  function StartupOutcome(flags: Flags, tlsOk: bool, loaded: Result<PolicyFile>, lib: Lib): Startup
  {
    if flags.version then ShowedVersion
    else if flags.keyFile != "" && flags.certFile != "" && !tlsOk then TlsFailed
    else if Cidrs(flags.cidrs, lib).Err? then BadCidr(Cidrs(flags.cidrs, lib).error)
    else
      var policy := Processed(loaded, AdjustCacheSize(flags.cacheSize), lib);
      if policy.err.Some? then PolicyFailed(policy.err.value) else Serving
  }

  /** Service starts only with an error-free policy; since the cache size is
      always 53, the cache can never be what fails. */
  lemma StartupGating(flags: Flags, tlsOk: bool, loaded: Result<PolicyFile>, lib: Lib)
    ensures StartupOutcome(flags, tlsOk, loaded, lib) == Serving ==>
      loaded.Ok? && Compiled(loaded.value, lib).err.None? && Cidrs(flags.cidrs, lib).Ok?
    ensures !StartupOutcome(flags, tlsOk, loaded, lib).PolicyFailed? || !StartupOutcome(flags, tlsOk, loaded, lib).err.CacheError?
  {
  }

  /** The installer's choice for one message `e` from the channel. */
  function Accept(current: Policy, e: Policy): Policy
  {
    if e.err.Some? then current else if e.hash != current.hash then e else current
  }

  /** The active policy after the installer has received `updates` in order. */
  function Installed(current: Policy, updates: seq<Policy>): Policy
  {
    if updates == [] then current
    else Accept(Installed(current, updates[..|updates| - 1]), updates[|updates| - 1])
  }

  /** The active policy is never an error carrier, and is always the starting
      policy or one of the received ones. */
  lemma {:induction false} InstalledIsClean(current: Policy, updates: seq<Policy>)
    requires current.err.None?
    ensures Installed(current, updates).err.None?
    ensures Installed(current, updates) == current || Installed(current, updates) in updates
  {
    if updates != [] {
      InstalledIsClean(current, updates[..|updates| - 1]);
    }
  }

  /** A message carrying the active policy's digest changes nothing. */
  lemma {:induction false} InstalledKeepsSameDigest(current: Policy, updates: seq<Policy>, e: Policy)
    requires e.hash == Installed(current, updates).hash
    ensures Installed(current, updates + [e]) == Installed(current, updates)
  {
    assert (updates + [e])[..|updates + [e]| - 1] == updates;
  }

  /** As written, a reload whose file differs only in its revocation list is
      discarded: the serials do not reach the digest. */
  lemma RevocationEditNotInstalled(current: Policy, e: Policy, p: PolicyFile, revList: seq<string>, lib: Lib)
    requires current.Value() == Compiled(p, lib) && e.Value() == Compiled(p.(revList := revList), lib)
    ensures Accept(current, e) == current
  {
    RevocationListNotHashed(p, revList, lib);
  }

  /** The digest input the revocation loop was evidently meant to produce:
      every serial written before the host entries. */
  function CorrectedHashInput(p: PolicyFile): string
  {
    Concat(p.revList) + HashInput(p.hosts)
  }

  function Concat(parts: seq<string>): string
  {
    if parts == [] then "" else Concat(parts[..|parts| - 1]) + parts[|parts| - 1]
  }

  /** With serials written, revoking one more certificate changes the digest input. */
  lemma CorrectedHashSeesRevocation(p: PolicyFile, serial: string)
    requires serial != ""
    ensures CorrectedHashInput(p.(revList := p.revList + [serial])) != CorrectedHashInput(p)
  {
    var longer := p.revList + [serial];
    assert longer[..|longer| - 1] == p.revList;
    assert |CorrectedHashInput(p.(revList := longer))| == |CorrectedHashInput(p)| + |serial|;
  }

  /** The snapshot the corrected compiler produces: as `Compiled`, but with
      the serials written into the digest. */
  function CorrectedCompiled(p: PolicyFile, lib: Lib): (s: Snapshot)
    ensures s.err == Compiled(p, lib).err && s.comparators == Compiled(p, lib).comparators
    ensures s.revocationList == Compiled(p, lib).revocationList
    ensures s.err.None? ==> s.hash == lib.sha1(CorrectedHashInput(p))
  {
    var c := Compiled(p, lib);
    if c.err.Some? then c else c.(hash := lib.sha1(CorrectedHashInput(p)))
  }

  /** With the corrected digest, and a SHA-1 that tells its inputs apart, the
      installer accepts a reload that only revokes one more certificate. */
  lemma CorrectedRevocationEditInstalled(current: Policy, e: Policy, p: PolicyFile, serial: string, lib: Lib)
    requires serial != ""
    requires forall x, y :: lib.sha1(x) == lib.sha1(y) ==> x == y
    requires Compiled(p, lib).err.None?
    requires current.Value() == CorrectedCompiled(p, lib)
    requires e.Value() == CorrectedCompiled(p.(revList := p.revList + [serial]), lib)
    ensures Accept(current, e) == e
  {
    var p2 := p.(revList := p.revList + [serial]);
    assert Compiled(p2, lib).err == Compiled(p, lib).err;
    CorrectedHashSeesRevocation(p, serial);
    assert lib.sha1(CorrectedHashInput(p2)) != lib.sha1(CorrectedHashInput(p));
  }

  /** The process-wide state of main.go. */
  class Daemon {
    var currentPolicy: Policy?
    var cidrSet: seq<IPNet>
    var cacheSize: int
    var serving: bool   // the installer, the watchers and the server have been started

    constructor ()
      ensures currentPolicy == null && cidrSet == [] && !serving
    {
      currentPolicy := null;
      cidrSet := [];
      cacheSize := 0;
      serving := false;
    }

    /** The startup part of `main`, up to the point where the goroutines and
        the server would be started. */
    method Start(flags: Flags, tlsOk: bool, loaded: Result<PolicyFile>, lib: Lib) returns (outcome: Startup)
      requires currentPolicy == null && cidrSet == [] && !serving
      modifies this
      ensures outcome == StartupOutcome(flags, tlsOk, loaded, lib)
      ensures serving <==> outcome == Serving
      ensures outcome == Serving ==>
        cacheSize == 53 && Cidrs(flags.cidrs, lib) == Ok(cidrSet)
        && currentPolicy != null && fresh(currentPolicy)
        && currentPolicy.Value() == Processed(loaded, 53, lib) && currentPolicy.err.None?
        && currentPolicy.cache != null && fresh(currentPolicy.cache) && currentPolicy.cache.Valid()
        && currentPolicy.cache.entries == map[]
    {
      cacheSize := flags.cacheSize;
      if flags.version {
        return ShowedVersion;
      }
      if flags.keyFile != "" && flags.certFile != "" {
        if !tlsOk {
          return TlsFailed;
        }
      }
      if flags.cidrs != "" {
        ghost var before := cidrSet;
        var bad := AppendCidrs(Split(flags.cidrs, ','), lib);
        if bad.Some? {
          return BadCidr(bad.value);
        }
        ghost var nets := ParseCidrs(Split(flags.cidrs, ','), lib).value;
        assert before == [] && cidrSet == before + nets;
        assert cidrSet == nets;
      }
      assert Cidrs(flags.cidrs, lib) == Ok(cidrSet);
      cacheSize := Min(53, Max(200000, cacheSize));
      currentPolicy := ProcessPolicyFile(loaded, cacheSize, lib);
      if currentPolicy.err.Some? {
        return PolicyFailed(currentPolicy.err.value);
      }
      serving := true;
      return Serving;
    }

    /** The loop over the `-cidrs` elements: each parsed network is appended
        to `cidrSet`; the first element that does not parse is returned. */
    method AppendCidrs(list: seq<string>, lib: Lib) returns (bad: Option<string>)
      modifies this`cidrSet
      ensures ParseCidrs(list, lib).Err? ==> bad == Some(ParseCidrs(list, lib).error)
      ensures ParseCidrs(list, lib).Ok? ==> bad == None && cidrSet == old(cidrSet) + ParseCidrs(list, lib).value
    {
      for i := 0 to |list|
        invariant ParseCidrs(list[..i], lib).Ok? && cidrSet == old(cidrSet) + ParseCidrs(list[..i], lib).value
      {
        assert list[..i + 1][..i] == list[..i];
        var cidr := lib.parseCidr(list[i]);
        if cidr.None? {
          ParseCidrsPrefix(list, i + 1, lib);
          return Some(list[i]);
        }
        cidrSet := cidrSet + [cidr.value];
      }
      assert list[..|list|] == list;
      return None;
    }

    /** One iteration of insertNewPolicy: an error or an equal digest leaves
        the active policy (and so its cache) alone; otherwise the received
        policy replaces it whole. */
    method InsertNewPolicy(e: Policy)
      requires currentPolicy != null
      modifies this`currentPolicy
      ensures currentPolicy == Accept(old(currentPolicy), e)
      ensures e.err.Some? || e.hash == old(currentPolicy).hash ==> currentPolicy == old(currentPolicy)
      ensures e.err.None? && e.hash != old(currentPolicy).hash ==> currentPolicy == e
    {
      if e.err.Some? {
        // "can't update policy"
      } else if e.hash != currentPolicy.hash {
        currentPolicy := e;
      }
    }

    /** insertNewPolicy's loop over the messages received so far. */
    method InsertNewPolicies(updates: seq<Policy>)
      requires currentPolicy != null
      modifies this`currentPolicy
      ensures currentPolicy == Installed(old(currentPolicy), updates)
    {
      for i := 0 to |updates|
        invariant currentPolicy == Installed(old(currentPolicy), updates[..i])
      {
        assert updates[..i + 1][..i] == updates[..i];
        InsertNewPolicy(updates[i]);
      }
      assert updates[..|updates|] == updates;
    }
  }
}
