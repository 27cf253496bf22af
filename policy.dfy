/** The authorization policy engine of policy.go: the parsed policy file, its
    compilation into comparators, the revocation set and the digest input,
    the loader's error composition, and the cached decision. */
module PolicyEngine {
  import opened Foreign
  import opened GoStrings
  import Lru

  /** The `cn` block of a host entry: allowed and denied common names. */
  datatype CnRules = CnRules(allow: seq<string>, deny: seq<string>)

  /** One element of `hosts` in the policy file. */
  datatype HostEntry = HostEntry(sniMatch: string, o: string, cn: CnRules)

  /** `policyFile`: the decoded YAML document. */
  datatype PolicyFile = PolicyFile(revList: seq<string>, hosts: seq<HostEntry>)

  /** A compiled `*regexp.Regexp`, known by its source pattern. */
  datatype Regexp = Regexp(source: string)

  /** `compEntry`: one compiled host entry. */
  datatype CompEntry = CompEntry(sniMatch: Regexp, o: Regexp, allowMatch: seq<string>, denyMatch: seq<string>)

  datatype Field = SniMatch | O

  /** The `err` a policy can carry. */
  datatype PolicyError =
    | LoadError(text: string)                                              // os.Open or YAML decoding
    | CompileError(entry: nat, field: Field, pattern: string, reason: string)
    | CacheError(text: string)                                             // lru.New

  /** What lru.New reports for a size that is not positive. */
  const CacheSizeError := "must provide a positive size"

  /** `err.Error()`. */
  function ErrorText(e: PolicyError): string
  {
    match e
    case LoadError(text) => text
    case CompileError(n, field, pattern, reason) =>
      "policy entry " + Decimal(n) + ": " + (if field == SniMatch then "sni match=" else "o=")
      + pattern + " could not be compiled: " + reason
    case CacheError(text) => text
  }

  /** A compile error's message starts with the entry number, which reads back. */
  lemma CompileErrorNamesEntry(n: nat, field: Field, pattern: string, reason: string)
    ensures var text := ErrorText(CompileError(n, field, pattern, reason));
      var digits := Decimal(n);
      |text| > 13 + |digits| && text[..13] == "policy entry " && text[13..13 + |digits|] == digits
      && text[13 + |digits|] == ':' && ParseDecimal(text[13..13 + |digits|]) == n
  {
    DecimalRoundTrip(n);
    var text := ErrorText(CompileError(n, field, pattern, reason));
    assert text == "policy entry " + Decimal(n) + (": " + (if field == SniMatch then "sni match=" else "o=")
      + pattern + " could not be compiled: " + reason);
  }

  /** Everything a `policy` holds except its cache. */
  datatype Snapshot = Snapshot(err: Option<PolicyError>, hash: seq<byte>, revocationList: set<string>, comparators: seq<CompEntry>)

  /** `&policy{err: e}`: every other field at its zero value. */
  function ErrorSnapshot(e: PolicyError): Snapshot
  {
    Snapshot(Some(e), [], {}, [])
  }

  /** An entry takes part in the policy only when its allow list is non-empty. */
  predicate Included(e: HostEntry)
  {
    |e.cn.allow| > 0
  }

  function ToComparator(e: HostEntry): CompEntry
  {
    CompEntry(Regexp(e.sniMatch), Regexp(e.o), e.cn.allow, [])
  }

  /** The comparators of the included entries, in file order. */
  function Comparators(hosts: seq<HostEntry>): seq<CompEntry>
  {
    if hosts == [] then []
    else
      var init, last := hosts[..|hosts| - 1], hosts[|hosts| - 1];
      Comparators(init) + (if Included(last) then [ToComparator(last)] else [])
  }

  /** `fmt.Sprintf("%v", value.CN)`: the struct printed as `{{[allow...]} {[deny...]}}`. */
  function CnText(cn: CnRules): string
  {
    "{{[" + Join(cn.allow, " ") + "]} {[" + Join(cn.deny, " ") + "]}}"
  }

  /** The bytes one included entry writes into the digest. */
  function EntryHashInput(e: HostEntry): string
  {
    e.sniMatch + e.o + CnText(e.cn)
  }

  /** Everything written into the SHA-1 state, in order. Revocation serials
      are absent: `h.Sum(b)` appends a digest to `b` and writes nothing. */
  function HashInput(hosts: seq<HostEntry>): string
  {
    if hosts == [] then ""
    else
      var init, last := hosts[..|hosts| - 1], hosts[|hosts| - 1];
      HashInput(init) + Contribution(last)
  }

  /** What an entry adds to the digest input: nothing when it is skipped. */
  function Contribution(e: HostEntry): string
  {
    if Included(e) then EntryHashInput(e) else ""
  }

  /** The error entry `n` (counted from 1) produces, if any. */
  function EntryFailure(e: HostEntry, n: nat, lib: Lib): (r: Option<PolicyError>)
    ensures r.Some? ==> r.value.CompileError? && r.value.entry == n
  {
    if !Included(e) then None
    else if !lib.regexpCompiles(e.sniMatch) then Some(CompileError(n, SniMatch, e.sniMatch, lib.regexpError(e.sniMatch)))
    else if !lib.regexpCompiles(e.o) then Some(CompileError(n, O, e.o, lib.regexpError(e.o)))
    else None
  }

  /** The error of the first entry that fails to compile. */
  function FirstFailure(hosts: seq<HostEntry>, lib: Lib): (r: Option<PolicyError>)
    ensures r.Some? ==> r.value.CompileError? && 1 <= r.value.entry <= |hosts|
  {
    if hosts == [] then None
    else
      var init := hosts[..|hosts| - 1];
      match FirstFailure(init, lib)
      case Some(e) => Some(e)
      case None => EntryFailure(hosts[|hosts| - 1], |hosts|, lib)
  }

  function RevocationSet(revList: seq<string>): set<string>
  {
    set s | s in revList
  }

  /** What compilePolicy produces from a decoded policy file. */
  function Compiled(p: PolicyFile, lib: Lib): Snapshot
  {
    match FirstFailure(p.hosts, lib)
    case Some(e) => ErrorSnapshot(e)
    case None => Snapshot(None, lib.sha1(HashInput(p.hosts)), RevocationSet(p.revList), Comparators(p.hosts))
  }

  /** What processPolicyFile produces; a cache is attached exactly when `err` is None. */
  function Processed(loaded: Result<PolicyFile>, cacheSize: int, lib: Lib): (s: Snapshot)
    ensures s.err.Some? ==> s == ErrorSnapshot(s.err.value)
    ensures s.err.None? <==> loaded.Ok? && Compiled(loaded.value, lib).err.None? && !Lru.NewFails(cacheSize)
    ensures s.err.None? ==> s == Compiled(loaded.value, lib)
    ensures loaded.Ok? && Compiled(loaded.value, lib).err.Some? ==> s == Compiled(loaded.value, lib)
    ensures loaded.Err? ==> s.err == Some(LoadError(loaded.error))
    ensures s.err.Some? && s.err.value.CacheError? ==> Lru.NewFails(cacheSize)
  {
    match loaded
    case Err(text) => ErrorSnapshot(LoadError(text))
    case Ok(p) =>
      var compiled := Compiled(p, lib);
      if compiled.err.Some? then compiled
      else if Lru.NewFails(cacheSize) then ErrorSnapshot(CacheError(CacheSizeError))
      else compiled
  }

  /** The cache key built from the identity. */
  function Key(host: string, o: string, cn: string): string
  {
    cn + "[" + o + "]" + host
  }

  /** Whether one comparator allows the identity. */
  predicate Matches(c: CompEntry, host: string, o: string, cn: string, lib: Lib)
  {
    lib.regexpMatch(c.sniMatch.source, host) && lib.regexpMatch(c.o.source, o) && cn in c.allowMatch
  }

  predicate Revoked(s: Snapshot, serial: string)
  {
    serial != "" && serial in s.revocationList
  }

  /** The verdict computed on a cache miss. */
  predicate Verdict(s: Snapshot, host: string, o: string, cn: string, serial: string, lib: Lib)
  {
    !Revoked(s, serial) && exists i :: 0 <= i < |s.comparators| && Matches(s.comparators[i], host, o, cn, lib)
  }

  /** The verdict isAuthorized returns against cache contents `entries`. */
  predicate Decision(entries: map<string, bool>, s: Snapshot, host: string, o: string, cn: string, serial: string, lib: Lib)
  {
    var key := Key(host, o, cn);
    if key in entries then entries[key] else Verdict(s, host, o, cn, serial, lib)
  }

  /** The cache after a decision `verdict` for `key`: unchanged on a hit;
      on a miss `key` holds the verdict, and every other key keeps its
      verdict or has been evicted. */
  predicate WrittenBack(before: map<string, bool>, after: map<string, bool>, key: string, verdict: bool)
  {
    (key in before ==> after == before)
    && (key !in before ==>
          key in after && after[key] == verdict
          && forall k :: k in after && k != key ==> k in before && after[k] == before[k])
  }

  /** `policy`. Every field but the cache is fixed once compilePolicy returns. */
  class Policy {
    const err: Option<PolicyError>
    const hash: seq<byte>
    const revocationList: set<string>
    const comparators: seq<CompEntry>
    var cache: Lru.Cache?

    function Value(): Snapshot
    {
      Snapshot(err, hash, revocationList, comparators)
    }

    constructor (s: Snapshot)
      ensures Value() == s && cache == null
    {
      err, hash, revocationList, comparators := s.err, s.hash, s.revocationList, s.comparators;
      cache := null;
    }

    /** isAuthorized: cache first, then revocation, then the first matching
        comparator; a computed verdict is written back under `Key`. */
    method IsAuthorized(host: string, o: string, cn: string, serial: string, lib: Lib) returns (allowed: bool)
      requires cache != null && cache.Valid()
      modifies cache
      ensures cache.Valid()
      ensures allowed == Decision(old(cache.entries), Value(), host, o, cn, serial, lib)
      ensures WrittenBack(old(cache.entries), cache.entries, Key(host, o, cn), allowed)
    {
      var key := cn + "[" + o + "]" + host;
      var isAllowed, found := cache.Get(key);
      if found {
        return isAllowed;
      }
      if serial != "" && serial in revocationList {
        cache.Add(key, false);
        return false;
      }
      for i := 0 to |comparators|
        invariant cache.entries == old(cache.entries)
        invariant forall j :: 0 <= j < i ==> !Matches(comparators[j], host, o, cn, lib)
      {
        var v := comparators[i];
        if lib.regexpMatch(v.sniMatch.source, host) && lib.regexpMatch(v.o.source, o) && cn in v.allowMatch {
          cache.Add(key, true);
          return true;
        }
      }
      cache.Add(key, false);
      return false;
    }
  }

  /** compilePolicy. */
  method CompilePolicy(p: PolicyFile, lib: Lib) returns (np: Policy)
    ensures fresh(np) && np.cache == null
    ensures np.Value() == Compiled(p, lib)
  {
    var revocationList: set<string> := {};
    for j := 0 to |p.revList|
      invariant revocationList == RevocationSet(p.revList[..j])
    {
      assert p.revList[..j + 1] == p.revList[..j] + [p.revList[j]];
      revocationList := revocationList + {p.revList[j]};
      // h.Sum([]byte(value)) leaves the digest state as it was
    }
    assert p.revList[..|p.revList|] == p.revList;

    var written: string := "";   // the bytes written into h
    var comparators: seq<CompEntry> := [];
    for i := 0 to |p.hosts|
      invariant FirstFailure(p.hosts[..i], lib) == None
      invariant comparators == Comparators(p.hosts[..i])
      invariant written == HashInput(p.hosts[..i])
    {
      var value := p.hosts[i];
      CompileStep(p.hosts, i, lib);
      if |value.cn.allow| == 0 {
        continue;
      }
      if !lib.regexpCompiles(value.sniMatch) {
        FirstFailurePrefix(p.hosts, i + 1, lib);
        np := new Policy(ErrorSnapshot(CompileError(i + 1, SniMatch, value.sniMatch, lib.regexpError(value.sniMatch))));
        return;
      }
      written := written + value.sniMatch;
      if !lib.regexpCompiles(value.o) {
        FirstFailurePrefix(p.hosts, i + 1, lib);
        np := new Policy(ErrorSnapshot(CompileError(i + 1, O, value.o, lib.regexpError(value.o))));
        return;
      }
      written := written + value.o;
      var newEntry := CompEntry(Regexp(value.sniMatch), Regexp(value.o), value.cn.allow, []);
      written := written + CnText(value.cn);
      comparators := comparators + [newEntry];
    }
    assert p.hosts[..|p.hosts|] == p.hosts;
    np := new Policy(Snapshot(None, lib.sha1(written), revocationList, comparators));
  }

  /** processPolicyFile, given what loadPolicy returned for the file. */
  method ProcessPolicyFile(loaded: Result<PolicyFile>, cacheSize: int, lib: Lib) returns (p: Policy)
    ensures fresh(p)
    ensures p.Value() == Processed(loaded, cacheSize, lib)
    ensures p.err.None? <==> p.cache != null
    ensures p.cache != null ==> fresh(p.cache) && p.cache.Valid() && p.cache.entries == map[] && p.cache.size == cacheSize
  {
    match loaded
    case Err(text) =>
      p := new Policy(ErrorSnapshot(LoadError(text)));
    case Ok(pf) =>
      var newPolicy := CompilePolicy(pf, lib);
      if newPolicy.err.Some? {
        return newPolicy;
      } else if Lru.NewFails(cacheSize) {
        p := new Policy(ErrorSnapshot(CacheError(CacheSizeError)));
      } else {
        var newLru := new Lru.Cache(cacheSize);
        newPolicy.cache := newLru;
        p := newPolicy;
      }
  }

  // ---- Properties of compilation ----

  /** One more entry extends each of the compiler's results by that entry's share. */
  lemma CompileStep(hosts: seq<HostEntry>, i: nat, lib: Lib)
    requires i < |hosts|
    ensures FirstFailure(hosts[..i + 1], lib) ==
      if FirstFailure(hosts[..i], lib).Some? then FirstFailure(hosts[..i], lib) else EntryFailure(hosts[i], i + 1, lib)
    ensures Comparators(hosts[..i + 1]) == Comparators(hosts[..i]) + (if Included(hosts[i]) then [ToComparator(hosts[i])] else [])
    ensures HashInput(hosts[..i + 1]) == HashInput(hosts[..i]) + Contribution(hosts[i])
  {
    var cur := hosts[..i + 1];
    assert cur[..|cur| - 1] == hosts[..i] && cur[|cur| - 1] == hosts[i];
  }

  /** Once a prefix has failed, the whole list fails with the same error. */
  lemma {:induction false} FirstFailurePrefix(hosts: seq<HostEntry>, n: nat, lib: Lib)
    requires n <= |hosts| && FirstFailure(hosts[..n], lib).Some?
    ensures FirstFailure(hosts, lib) == FirstFailure(hosts[..n], lib)
    decreases |hosts| - n
  {
    if n < |hosts| {
      var init := hosts[..|hosts| - 1];
      assert init[..n] == hosts[..n];
      FirstFailurePrefix(init, n, lib);
    } else {
      assert hosts[..n] == hosts;
    }
  }

  /** Every included entry's patterns compile. */
  predicate AllCompile(hosts: seq<HostEntry>, lib: Lib)
  {
    forall i :: 0 <= i < |hosts| && Included(hosts[i]) ==> lib.regexpCompiles(hosts[i].sniMatch) && lib.regexpCompiles(hosts[i].o)
  }

  /** Compilation fails exactly when some included entry has a pattern that
      does not compile. */
  lemma {:induction false} FirstFailureExactly(hosts: seq<HostEntry>, lib: Lib)
    ensures FirstFailure(hosts, lib).None? <==> AllCompile(hosts, lib)
  {
    if hosts != [] {
      var init := hosts[..|hosts| - 1];
      FirstFailureExactly(init, lib);
      assert forall j :: 0 <= j < |init| ==> init[j] == hosts[j];
    }
  }

  /** The error names the first failing included entry, counting skipped
      entries from 1, with `sni match` tried before `o`. */
  lemma {:induction false} FirstFailureNamesFirst(hosts: seq<HostEntry>, lib: Lib)
    requires FirstFailure(hosts, lib).Some?
    ensures var e := FirstFailure(hosts, lib).value;
      e.CompileError? && 1 <= e.entry <= |hosts| && Included(hosts[e.entry - 1])
      && (e.field == SniMatch ==> !lib.regexpCompiles(hosts[e.entry - 1].sniMatch) && e.pattern == hosts[e.entry - 1].sniMatch)
      && (e.field == O ==> lib.regexpCompiles(hosts[e.entry - 1].sniMatch) && !lib.regexpCompiles(hosts[e.entry - 1].o) && e.pattern == hosts[e.entry - 1].o)
      && e.reason == lib.regexpError(e.pattern)
      && AllCompile(hosts[..e.entry - 1], lib)
  {
    var init := hosts[..|hosts| - 1];
    assert forall j :: 0 <= j < |init| ==> init[j] == hosts[j];
    if FirstFailure(init, lib).Some? {
      FirstFailureNamesFirst(init, lib);
      var n := FirstFailure(init, lib).value.entry;
      assert init[..n - 1] == hosts[..n - 1];
    } else {
      FirstFailureExactly(init, lib);
      assert init == hosts[..|hosts| - 1];
    }
  }

  /** Comparators distribute over concatenation of entry lists … */
  lemma {:induction false} ComparatorsAppend(a: seq<HostEntry>, b: seq<HostEntry>)
    ensures Comparators(a + b) == Comparators(a) + Comparators(b)
    decreases |b|
  {
    if b == [] {
      assert a + b == a;
    } else {
      var binit := b[..|b| - 1];
      assert (a + b)[..|a + b| - 1] == a + binit;
      ComparatorsAppend(a, binit);
    }
  }

  /** … and so does the digest input. */
  lemma {:induction false} HashInputAppend(a: seq<HostEntry>, b: seq<HostEntry>)
    ensures HashInput(a + b) == HashInput(a) + HashInput(b)
    decreases |b|
  {
    if b == [] {
      assert a + b == a;
    } else {
      var binit, last := b[..|b| - 1], b[|b| - 1];
      assert (a + b)[..|a + b| - 1] == a + binit;
      assert (a + b)[|a + b| - 1] == last;
      HashInputAppend(a, binit);
      calc {
        HashInput(a + b);
        HashInput(a + binit) + Contribution(last);
        (HashInput(a) + HashInput(binit)) + Contribution(last);
        HashInput(a) + (HashInput(binit) + Contribution(last));
        HashInput(a) + HashInput(b);
      }
    }
  }

  /** A comparator exists exactly for each included entry, carrying that
      entry's patterns and allow list and an empty deny list. */
  lemma {:induction false} ComparatorsAreIncludedEntries(hosts: seq<HostEntry>, c: CompEntry)
    ensures c in Comparators(hosts) <==> exists i :: 0 <= i < |hosts| && Included(hosts[i]) && c == ToComparator(hosts[i])
  {
    if hosts != [] {
      var init := hosts[..|hosts| - 1];
      ComparatorsAreIncludedEntries(init, c);
      assert forall j :: 0 <= j < |init| ==> init[j] == hosts[j];
    }
  }

  /** Every comparator has a non-empty allow list and no deny list. */
  lemma {:induction false} ComparatorsAllowOnly(hosts: seq<HostEntry>)
    ensures forall c :: c in Comparators(hosts) ==> |c.allowMatch| > 0 && c.denyMatch == []
  {
    forall c | c in Comparators(hosts)
      ensures |c.allowMatch| > 0 && c.denyMatch == []
    {
      ComparatorsAreIncludedEntries(hosts, c);
    }
  }

  /** An entry with an empty allow list changes neither the comparators … */
  lemma SkippedEntryNoComparator(a: seq<HostEntry>, e: HostEntry, b: seq<HostEntry>)
    requires !Included(e)
    ensures Comparators(a + [e] + b) == Comparators(a + b)
  {
    ComparatorsAppend(a + [e], b);
    ComparatorsAppend(a, [e]);
    ComparatorsAppend(a, b);
    assert [e][..0] == [];
    assert Comparators([e]) == [];
    assert Comparators(a + [e]) == Comparators(a);
  }

  /** … nor the digest input … */
  lemma SkippedEntryNotHashed(a: seq<HostEntry>, e: HostEntry, b: seq<HostEntry>)
    requires !Included(e)
    ensures HashInput(a + [e] + b) == HashInput(a + b)
  {
    HashInputAppend(a + [e], b);
    HashInputAppend(a, [e]);
    HashInputAppend(a, b);
    assert [e][..0] == [];
    assert HashInput([e]) == "";
    assert HashInput(a + [e]) == HashInput(a);
  }

  /** … and an uncompilable pattern in it causes no error. */
  lemma SkippedEntryCausesNoError(a: seq<HostEntry>, e: HostEntry, b: seq<HostEntry>, lib: Lib)
    requires !Included(e)
    ensures FirstFailure(a + [e] + b, lib).None? <==> FirstFailure(a + b, lib).None?
  {
    var x, y := a + [e] + b, a + b;
    FirstFailureExactly(x, lib);
    FirstFailureExactly(y, lib);
    assert |x| == |y| + 1 && x[|a|] == e;
    assert forall i :: 0 <= i < |a| ==> x[i] == y[i];
    assert forall i :: |a| <= i < |y| ==> x[i + 1] == y[i];
    if AllCompile(y, lib) {
      forall i | 0 <= i < |x| && Included(x[i])
        ensures lib.regexpCompiles(x[i].sniMatch) && lib.regexpCompiles(x[i].o)
      {
        if i > |a| {
          assert x[i] == y[i - 1];
        }
      }
    }
    if AllCompile(x, lib) {
      forall i | 0 <= i < |y| && Included(y[i])
        ensures lib.regexpCompiles(y[i].sniMatch) && lib.regexpCompiles(y[i].o)
      {
        if i >= |a| {
          assert x[i + 1] == y[i];
        }
      }
    }
  }

  /** Deny lists never reach a verdict: entry lists that differ only in them
      compile to the same comparators and fail in the same way. */
  lemma {:induction false} DenyListsIgnored(h1: seq<HostEntry>, h2: seq<HostEntry>, lib: Lib)
    requires |h1| == |h2|
    requires forall i :: 0 <= i < |h1| ==> h1[i].sniMatch == h2[i].sniMatch && h1[i].o == h2[i].o && h1[i].cn.allow == h2[i].cn.allow
    ensures Comparators(h1) == Comparators(h2)
    ensures FirstFailure(h1, lib) == FirstFailure(h2, lib)
  {
    if h1 != [] {
      DenyListsIgnored(h1[..|h1| - 1], h2[..|h2| - 1], lib);
    }
  }

  /** … but they are hashed: editing the deny list of one included entry so
      that its printed form changes length changes the digest input. */
  lemma DenyListHashed(a: seq<HostEntry>, e: HostEntry, b: seq<HostEntry>, deny: seq<string>)
    requires Included(e) && |Join(deny, " ")| != |Join(e.cn.deny, " ")|
    ensures HashInput(a + [e] + b) != HashInput(a + [e.(cn := e.cn.(deny := deny))] + b)
  {
    var e2 := e.(cn := e.cn.(deny := deny));
    HashInputAppend(a + [e], b);
    HashInputAppend(a, [e]);
    HashInputAppend(a + [e2], b);
    HashInputAppend(a, [e2]);
    assert HashInput([e]) == EntryHashInput(e) && HashInput([e2]) == EntryHashInput(e2) by {
      assert [e][..0] == [] && [e2][..0] == [];
      assert HashInput([e]) == HashInput([]) + Contribution(e);
      assert HashInput([e2]) == HashInput([]) + Contribution(e2);
    }
  }

  /** On a cache miss, a successfully compiled file allows an identity iff its
      serial is not revoked and some included entry matches it. */
  lemma VerdictFromFile(p: PolicyFile, host: string, o: string, cn: string, serial: string, lib: Lib)
    requires Compiled(p, lib).err.None?
    ensures Verdict(Compiled(p, lib), host, o, cn, serial, lib) <==>
      !(serial != "" && serial in p.revList) && EntryAllows(p.hosts, host, o, cn, lib)
  {
    var s := Compiled(p, lib);
    var cs := Comparators(p.hosts);
    assert s.comparators == cs;
    if exists k :: 0 <= k < |cs| && Matches(cs[k], host, o, cn, lib) {
      var k :| 0 <= k < |cs| && Matches(cs[k], host, o, cn, lib);
      ComparatorsAreIncludedEntries(p.hosts, cs[k]);
      var i :| 0 <= i < |p.hosts| && Included(p.hosts[i]) && cs[k] == ToComparator(p.hosts[i]);
      assert EntryMatches(p.hosts[i], host, o, cn, lib);
    }
    if EntryAllows(p.hosts, host, o, cn, lib) {
      var i :| 0 <= i < |p.hosts| && Included(p.hosts[i]) && EntryMatches(p.hosts[i], host, o, cn, lib);
      ComparatorsAreIncludedEntries(p.hosts, ToComparator(p.hosts[i]));
      var k :| 0 <= k < |cs| && cs[k] == ToComparator(p.hosts[i]);
      assert Matches(cs[k], host, o, cn, lib);
    }
  }

  /** Whether an entry's own patterns and allow list admit the identity. */
  predicate EntryMatches(e: HostEntry, host: string, o: string, cn: string, lib: Lib)
  {
    lib.regexpMatch(e.sniMatch, host) && lib.regexpMatch(e.o, o) && cn in e.cn.allow
  }

  /** Whether some included entry of the file admits the identity. */
  predicate EntryAllows(hosts: seq<HostEntry>, host: string, o: string, cn: string, lib: Lib)
  {
    exists i :: 0 <= i < |hosts| && Included(hosts[i]) && EntryMatches(hosts[i], host, o, cn, lib)
  }

  /** A change confined to the revocation list leaves the digest, and thus
      the policy's identity for reloading, unchanged. */
  lemma RevocationListNotHashed(p: PolicyFile, revList: seq<string>, lib: Lib)
    ensures Compiled(p, lib).hash == Compiled(p.(revList := revList), lib).hash
  {
  }

  // ---- Properties of the decision ----

  /** A cached verdict is returned as is, whatever the serial: a cached
      `true` survives a revoked serial. */
  lemma CachedVerdictWins(entries: map<string, bool>, s: Snapshot, host: string, o: string, cn: string, serial: string, lib: Lib)
    requires Key(host, o, cn) in entries
    ensures Decision(entries, s, host, o, cn, serial, lib) == entries[Key(host, o, cn)]
  {
  }

  /** On a miss, a revoked serial is denied, and the empty serial is never revoked. */
  lemma RevokedSerialDenied(s: Snapshot, host: string, o: string, cn: string, serial: string, lib: Lib)
    ensures serial != "" && serial in s.revocationList ==> !Verdict(s, host, o, cn, serial, lib)
    ensures !Revoked(s, "")
  {
  }

  /** After a decision, asking again under the same policy gives the same
      verdict from the cache, whatever else was evicted meanwhile. */
  lemma DecisionIsSticky(before: map<string, bool>, after: map<string, bool>, s: Snapshot, host: string, o: string, cn: string, serial: string, serial2: string, lib: Lib)
    requires Key(host, o, cn) in after && after[Key(host, o, cn)] == Decision(before, s, host, o, cn, serial, lib)
    ensures Decision(after, s, host, o, cn, serial2, lib) == Decision(before, s, host, o, cn, serial, lib)
  {
  }
}
