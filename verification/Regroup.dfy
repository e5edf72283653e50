/** Log entries are grouped again by resource and scope, through two maps of positions into the output. */
module Regroup {
  import opened Tally

  /** `resource` and `payload` stand for the attributes of an entry's resource and for the rest of the entry. */
  datatype Entry = Entry(resource: nat, scope: string, payload: nat)

  datatype ScopeLogs = ScopeLogs(name: string, records: seq<Entry>)

  datatype ResourceLogs = ResourceLogs(resource: nat, scopes: seq<ScopeLogs>)

  // ---- What the grouping should be ----------------------------------------------------------------------------

  /** The distinct members of a sequence, in the order they first appear. */
  function FirstSeen<K(==,!new)>(ks: seq<K>): (r: seq<K>)
    ensures forall k :: k in r <==> k in ks
  {
    if ks == [] then []
    else
      var n := |ks| - 1;
      assert ks == ks[..n] + [ks[n]];
      if ks[n] in ks[..n] then FirstSeen(ks[..n]) else FirstSeen(ks[..n]) + [ks[n]]
  }

  lemma {:induction false} FirstSeenDistinct<K(!new)>(ks: seq<K>)
    ensures forall i, j :: 0 <= i < j < |FirstSeen(ks)| ==> FirstSeen(ks)[i] != FirstSeen(ks)[j]
  {
    if ks != [] {
      FirstSeenDistinct(ks[..|ks| - 1]);
    }
  }

  /** The entries of a hash, and of a hash and a scope, in their order. */
  function OfHash(es: seq<Entry>, hash: nat -> nat, h: nat): seq<Entry> {
    if es == [] then []
    else OfHash(es[..|es| - 1], hash, h) + if hash(es[|es| - 1].resource) == h then [es[|es| - 1]] else []
  }

  function OfScope(es: seq<Entry>, scope: string): seq<Entry> {
    if es == [] then [] else OfScope(es[..|es| - 1], scope) + if es[|es| - 1].scope == scope then [es[|es| - 1]] else []
  }

  function Hashes(es: seq<Entry>, hash: nat -> nat): (r: seq<nat>)
    ensures |r| == |es| && forall i :: 0 <= i < |es| ==> r[i] == hash(es[i].resource)
  {
    seq<nat>(|es|, i requires 0 <= i < |es| => hash(es[i].resource))
  }

  function Scopes(es: seq<Entry>): (r: seq<string>)
    ensures |r| == |es| && forall i :: 0 <= i < |es| ==> r[i] == es[i].scope
  {
    seq(|es|, i requires 0 <= i < |es| => es[i].scope)
  }

  /** A group holds the entries `es`: under the first one's resource, one scope for each scope name in first-seen order,
      each with its entries in their order. */
  predicate GroupIs(g: ResourceLogs, es: seq<Entry>) {
    && es != [] && g.resource == es[0].resource
    && |g.scopes| == |FirstSeen(Scopes(es))|
    && forall s :: 0 <= s < |g.scopes| ==>
         g.scopes[s].name == FirstSeen(Scopes(es))[s] && g.scopes[s].records == OfScope(es, g.scopes[s].name)
  }

  /** One group for each hash, in first-seen order. */
  predicate Grouped(logs: seq<ResourceLogs>, es: seq<Entry>, hash: nat -> nat) {
    && |logs| == |FirstSeen(Hashes(es, hash))|
    && forall g :: 0 <= g < |logs| ==> GroupIs(logs[g], OfHash(es, hash, FirstSeen(Hashes(es, hash))[g]))
  }

  // ---- The position maps --------------------------------------------------------------------------------------

  /** `index` gives the exact position of every member. */
  ghost predicate Indexes<K(!new)>(index: map<K, nat>, ks: seq<K>) {
    && (forall k :: k in index ==> index[k] < |ks| && ks[index[k]] == k)
    && forall i :: 0 <= i < |ks| ==> ks[i] in index && index[ks[i]] == i
  }

  ghost predicate ScopesIndexed(scopeIdx: map<nat, map<string, nat>>, es: seq<Entry>, hash: nat -> nat) {
    && (forall h :: h in scopeIdx <==> h in Hashes(es, hash))
    && forall h :: h in scopeIdx ==> Indexes(scopeIdx[h], FirstSeen(Scopes(OfHash(es, hash, h))))
  }

  // ---- One entry more -----------------------------------------------------------------------------------------

  lemma Snoc(es: seq<Entry>, e: Entry, hash: nat -> nat)
    ensures Hashes(es + [e], hash) == Hashes(es, hash) + [hash(e.resource)]
    ensures Scopes(es + [e]) == Scopes(es) + [e.scope]
    ensures forall h :: OfHash(es + [e], hash, h) == OfHash(es, hash, h) + if hash(e.resource) == h then [e] else []
    ensures forall s :: OfScope(es + [e], s) == OfScope(es, s) + if e.scope == s then [e] else []
  {
    assert (es + [e])[..|es|] == es;
  }

  lemma FirstSeenSnoc<K(!new)>(ks: seq<K>, k: K)
    ensures FirstSeen(ks + [k]) == if k in ks then FirstSeen(ks) else FirstSeen(ks) + [k]
  {
    assert (ks + [k])[..|ks|] == ks;
  }

  lemma {:induction false} OfHashEmpty(es: seq<Entry>, hash: nat -> nat, h: nat)
    ensures OfHash(es, hash, h) == [] <==> h !in Hashes(es, hash)
  {
    if es != [] {
      var n := |es| - 1;
      OfHashEmpty(es[..n], hash, h);
      assert es == es[..n] + [es[n]];
      Snoc(es[..n], es[n], hash);
    }
  }

  lemma {:induction false} OfScopeEmpty(es: seq<Entry>, scope: string)
    ensures OfScope(es, scope) == [] <==> scope !in Scopes(es)
  {
    if es != [] {
      var n := |es| - 1;
      OfScopeEmpty(es[..n], scope);
      assert es == es[..n] + [es[n]];
      Snoc(es[..n], es[n], _ => 0);
    }
  }

  lemma NewGroup(e: Entry)
    ensures GroupIs(ResourceLogs(e.resource, [ScopeLogs(e.scope, [e])]), [e])
  {
  }

  /** Where the next entry of a group goes: at the end of its scope's records, the scope being added if it is new. */
  function Placed(g: ResourceLogs, s: nat, e: Entry): ResourceLogs
    requires s <= |g.scopes|
  {
    if s == |g.scopes| then g.(scopes := g.scopes + [ScopeLogs(e.scope, [e])])
    else g.(scopes := g.scopes[s := g.scopes[s].(records := g.scopes[s].records + [e])])
  }

  lemma GroupGrows(g: ResourceLogs, es: seq<Entry>, e: Entry, s: nat)
    requires GroupIs(g, es) && s <= |g.scopes|
    requires if e.scope in Scopes(es) then s < |g.scopes| && FirstSeen(Scopes(es))[s] == e.scope else s == |g.scopes|
    ensures GroupIs(Placed(g, s, e), es + [e])
  {
    Snoc(es, e, _ => 0);
    FirstSeenSnoc(Scopes(es), e.scope);
    FirstSeenDistinct(Scopes(es));
    OfScopeEmpty(es, e.scope);
    var names, g' := FirstSeen(Scopes(es)), Placed(g, s, e);
    hide FirstSeen, OfScope, Scopes;
    forall k | 0 <= k < |g'.scopes|
      ensures g'.scopes[k].name == FirstSeen(Scopes(es + [e]))[k]
              && g'.scopes[k].records == OfScope(es + [e], g'.scopes[k].name)
    {
      if k < |names| && k != s {
        assert names[k] in Scopes(es) && g'.scopes[k] == g.scopes[k];
      }
    }
  }

  /** A known hash: its group grows, the others stay. */
  lemma KnownHash(logs: seq<ResourceLogs>, es: seq<Entry>, hash: nat -> nat, e: Entry, g: nat, s: nat)
    requires Grouped(logs, es, hash) && g < |logs| && FirstSeen(Hashes(es, hash))[g] == hash(e.resource)
    requires s <= |logs[g].scopes|
    requires var own := OfHash(es, hash, hash(e.resource));
             if e.scope in Scopes(own) then s < |logs[g].scopes| && FirstSeen(Scopes(own))[s] == e.scope
               else s == |logs[g].scopes|
    ensures Grouped(logs[g := Placed(logs[g], s, e)], es + [e], hash)
  {
    Snoc(es, e, hash);
    FirstSeenSnoc(Hashes(es, hash), hash(e.resource));
    FirstSeenDistinct(Hashes(es, hash));
    GroupGrows(logs[g], OfHash(es, hash, hash(e.resource)), e, s);
    var hs, logs' := FirstSeen(Hashes(es, hash)), logs[g := Placed(logs[g], s, e)];
    assert hs[g] in hs;
    hide FirstSeen, GroupIs, OfHash, Scopes, Hashes, Placed;
    forall k | 0 <= k < |logs'|
      ensures GroupIs(logs'[k], OfHash(es + [e], hash, hs[k]))
    {
      if k != g {
        assert hs[k] != hash(e.resource) && OfHash(es, hash, hs[k]) + [] == OfHash(es, hash, hs[k]);
      }
    }
  }

  /** A new hash: a group of its own is added. */
  lemma NewHash(logs: seq<ResourceLogs>, es: seq<Entry>, hash: nat -> nat, e: Entry)
    requires Grouped(logs, es, hash) && hash(e.resource) !in Hashes(es, hash)
    ensures Grouped(logs + [ResourceLogs(e.resource, [ScopeLogs(e.scope, [e])])], es + [e], hash)
  {
    hide FirstSeen, GroupIs, OfHash, Hashes;
    Snoc(es, e, hash);
    FirstSeenSnoc(Hashes(es, hash), hash(e.resource));
    OfHashEmpty(es, hash, hash(e.resource));
    NewGroup(e);
    var hs, logs' := FirstSeen(Hashes(es, hash)), logs + [ResourceLogs(e.resource, [ScopeLogs(e.scope, [e])])];
    assert forall k :: 0 <= k < |hs| ==> hs[k] in hs;
    assert [] + [e] == [e];
    forall k | 0 <= k < |logs'|
      ensures GroupIs(logs'[k], OfHash(es + [e], hash, (hs + [hash(e.resource)])[k]))
    {
      if k < |hs| {
        assert hs[k] != hash(e.resource) && OfHash(es, hash, hs[k]) + [] == OfHash(es, hash, hs[k]);
      }
    }
  }

  lemma IndexSnoc<K(!new)>(index: map<K, nat>, ks: seq<K>, k: K)
    requires Indexes(index, ks)
    ensures k in index <==> k in ks
    ensures k !in ks ==> Indexes(index[k := |ks|], ks + [k])
  {
  }

  lemma IndexGrows<K(!new)>(index: map<K, nat>, ks: seq<K>, k: K)
    requires Indexes(index, FirstSeen(ks))
    ensures k in index <==> k in ks
    ensures Indexes(if k in index then index else index[k := |FirstSeen(ks)|], FirstSeen(ks + [k]))
  {
    FirstSeenSnoc(ks, k);
    hide FirstSeen, Indexes;
    IndexSnoc(index, FirstSeen(ks), k);
  }

  /** The scope positions after one entry more, `own` being those of its hash. */
  lemma ScopesGrow(scopeIdx: map<nat, map<string, nat>>, es: seq<Entry>, hash: nat -> nat, e: Entry,
                   own: map<string, nat>)
    requires ScopesIndexed(scopeIdx, es, hash)
    requires Indexes(own, FirstSeen(Scopes(OfHash(es, hash, hash(e.resource)) + [e])))
    ensures ScopesIndexed(scopeIdx[hash(e.resource) := own], es + [e], hash)
  {
    hide FirstSeen, Indexes, OfHash, Scopes, Hashes;
    var h := hash(e.resource);
    forall k
      ensures k in scopeIdx[h := own] <==> k in Hashes(es + [e], hash)
      ensures k in scopeIdx[h := own] ==> Indexes(scopeIdx[h := own][k], FirstSeen(Scopes(OfHash(es + [e], hash, k))))
    {
      OfHashSnoc(es, e, hash, k);
    }
  }

  /** One entry more changes what there is of its own hash only. */
  lemma OfHashSnoc(es: seq<Entry>, e: Entry, hash: nat -> nat, k: nat)
    ensures k in Hashes(es + [e], hash) <==> k in Hashes(es, hash) || k == hash(e.resource)
    ensures OfHash(es + [e], hash, k) == if k == hash(e.resource) then OfHash(es, hash, k) + [e]
              else OfHash(es, hash, k)
  {
    Snoc(es, e, hash);
    assert OfHash(es, hash, k) + [] == OfHash(es, hash, k);
  }

  /** The scope positions of one group after one entry more. */
  lemma OwnScopesGrow(before: map<string, nat>, mine: seq<Entry>, e: Entry)
    requires Indexes(before, FirstSeen(Scopes(mine)))
    ensures e.scope in before <==> e.scope in Scopes(mine)
    ensures Indexes(if e.scope in before then before
                    else before[e.scope := |FirstSeen(Scopes(mine))|], FirstSeen(Scopes(mine + [e])))
  {
    hide FirstSeen, Indexes, Scopes;
    IndexGrows(before, Scopes(mine), e.scope);
    Snoc(mine, e, _ => 0);
  }

  lemma FirstScope(e: Entry)
    ensures Indexes(map[e.scope := 0], FirstSeen(Scopes([] + [e])))
  {
    assert Scopes([]) == [] && FirstSeen<string>([]) == [];
    OwnScopesGrow(map[], [], e);
  }

  method ConvertEntriesToPlogs(entries: seq<Entry>, hash: nat -> nat) returns (logs: seq<ResourceLogs>)
    ensures Grouped(logs, entries, hash)
  {
    hide Grouped, ScopesIndexed, Indexes, FirstSeen, OfHash, Scopes, Hashes, GroupIs, Placed;
    var resourceHashToIdx: map<nat, nat> := map[];
    var scopeIdxByResource: map<nat, map<string, nat>> := map[];
    logs := [];
    NothingYet(hash);
    for i := 0 to |entries|
      invariant Grouped(logs, entries[..i], hash)
      invariant Indexes(resourceHashToIdx, FirstSeen(Hashes(entries[..i], hash)))
      invariant ScopesIndexed(scopeIdxByResource, entries[..i], hash)
    {
      var e, done := entries[i], entries[..i];
      var resourceID := hash(e.resource);
      assert entries[..i + 1] == done + [e];
      Facts(logs, resourceHashToIdx, scopeIdxByResource, done, hash, e);
      if resourceID !in resourceHashToIdx {
        NewHash(logs, done, hash, e);
        resourceHashToIdx := resourceHashToIdx[resourceID := |logs|];
        logs := logs + [ResourceLogs(e.resource, [ScopeLogs(e.scope, [e])])];
        FirstScope(e);
        ScopesGrow(scopeIdxByResource, done, hash, e, map[e.scope := 0]);
        scopeIdxByResource := scopeIdxByResource[resourceID := map[e.scope := 0]];
      } else {
        var resourceIdx := resourceHashToIdx[resourceID];
        var rl := logs[resourceIdx];
        var scopeIdx := scopeIdxByResource[resourceID];
        if e.scope !in scopeIdx {
          scopeIdx := scopeIdx[e.scope := |rl.scopes|];
        }
        OwnScopesGrow(scopeIdxByResource[resourceID], OfHash(done, hash, resourceID), e);
        KnownHash(logs, done, hash, e, resourceIdx, scopeIdx[e.scope]);
        ScopesGrow(scopeIdxByResource, done, hash, e, scopeIdx);
        scopeIdxByResource := scopeIdxByResource[resourceID := scopeIdx];
        logs := logs[resourceIdx := Placed(rl, scopeIdx[e.scope], e)];
      }
    }
    assert entries[..|entries|] == entries;
  }

  lemma NothingYet(hash: nat -> nat)
    ensures Grouped([], [], hash) && Indexes(map[], FirstSeen(Hashes([], hash))) && ScopesIndexed(map[], [], hash)
  {
  }

  /** What the maps say about the next entry. */
  lemma Facts(logs: seq<ResourceLogs>, resourceIdx: map<nat, nat>, scopeIdx: map<nat, map<string, nat>>, es: seq<Entry>,
              hash: nat -> nat, e: Entry)
    requires Grouped(logs, es, hash) && Indexes(resourceIdx, FirstSeen(Hashes(es, hash)))
             && ScopesIndexed(scopeIdx, es, hash)
    ensures var h := hash(e.resource);
            && Indexes(if h in resourceIdx then resourceIdx
                       else resourceIdx[h := |logs|], FirstSeen(Hashes(es + [e], hash)))
            && (h in resourceIdx <==> h in Hashes(es, hash)) && (h in scopeIdx <==> h in resourceIdx)
            && (h in resourceIdx ==>
                  var own := OfHash(es, hash, h);
                  && resourceIdx[h] < |logs| && FirstSeen(Hashes(es, hash))[resourceIdx[h]] == h
                  && |logs[resourceIdx[h]].scopes| == |FirstSeen(Scopes(own))|
                  && (e.scope in scopeIdx[h] <==> e.scope in Scopes(own))
                  && (e.scope in scopeIdx[h] ==>
                        scopeIdx[h][e.scope] < |FirstSeen(Scopes(own))|
                          && FirstSeen(Scopes(own))[scopeIdx[h][e.scope]] == e.scope))
            && (h !in resourceIdx ==> OfHash(es, hash, h) == [])
            && (h in scopeIdx ==> Indexes(scopeIdx[h], FirstSeen(Scopes(OfHash(es, hash, h)))))
  {
    var h := hash(e.resource);
    Snoc(es, e, hash);
    IndexGrows(resourceIdx, Hashes(es, hash), h);
    OfHashEmpty(es, hash, h);
    if h in resourceIdx {
      IndexGrows(scopeIdx[h], Scopes(OfHash(es, hash, h)), e.scope);
      assert GroupIs(logs[resourceIdx[h]], OfHash(es, hash, h));
    }
  }

  // ---- What grouping by hash means ----------------------------------------------------------------------------

  lemma {:induction false} OfHashMembers(es: seq<Entry>, hash: nat -> nat, h: nat)
    ensures forall e :: e in OfHash(es, hash, h) <==> e in es && hash(e.resource) == h
  {
    if es != [] {
      OfHashMembers(es[..|es| - 1], hash, h);
      assert es == es[..|es| - 1] + [es[|es| - 1]];
    }
  }

  lemma {:induction false} OfScopeMembers(es: seq<Entry>, scope: string)
    ensures forall e :: e in OfScope(es, scope) <==> e in es && e.scope == scope
  {
    if es != [] {
      OfScopeMembers(es[..|es| - 1], scope);
      assert es == es[..|es| - 1] + [es[|es| - 1]];
    }
  }

  /** Every entry is under its own resource. */
  ghost predicate UnderOwnResource(logs: seq<ResourceLogs>) {
    forall g, s, e :: 0 <= g < |logs| && 0 <= s < |logs[g].scopes| && e in logs[g].scopes[s].records ==>
      e.resource == logs[g].resource
  }

  /** No two resources among the entries have one hash. */
  predicate NoCollision(es: seq<Entry>, hash: nat -> nat) {
    forall i, j :: 0 <= i < |es| && 0 <= j < |es| && hash(es[i].resource) == hash(es[j].resource) ==>
      es[i].resource == es[j].resource
  }

  /** Where an entry is found in the output. */
  lemma Position(logs: seq<ResourceLogs>, es: seq<Entry>, hash: nat -> nat, i: nat) returns (g: nat, s: nat)
    requires Grouped(logs, es, hash) && i < |es|
    ensures g < |logs| && FirstSeen(Hashes(es, hash))[g] == hash(es[i].resource)
    ensures s < |logs[g].scopes| && logs[g].scopes[s].name == es[i].scope && es[i] in logs[g].scopes[s].records
  {
    var hs, h := FirstSeen(Hashes(es, hash)), hash(es[i].resource);
    assert Hashes(es, hash)[i] in hs;
    g :| 0 <= g < |hs| && hs[g] == h;
    var own := OfHash(es, hash, h);
    assert GroupIs(logs[g], own);
    OfHashMembers(es, hash, h);
    assert es[i] in own;
    var o :| 0 <= o < |own| && own[o] == es[i];
    var names := FirstSeen(Scopes(own));
    assert Scopes(own)[o] in names;
    s :| 0 <= s < |names| && names[s] == es[i].scope;
    OfScopeMembers(own, es[i].scope);
  }

  /** A group's entries are those of one hash, the first giving the resource. */
  lemma InGroup(logs: seq<ResourceLogs>, es: seq<Entry>, hash: nat -> nat, g: nat, s: nat, e: Entry)
    requires Grouped(logs, es, hash) && g < |logs| && s < |logs[g].scopes| && e in logs[g].scopes[s].records
    ensures e in es && hash(e.resource) == FirstSeen(Hashes(es, hash))[g] && e.scope == logs[g].scopes[s].name
    ensures var h := FirstSeen(Hashes(es, hash))[g];
            exists first :: first in es && hash(first.resource) == h && first.resource == logs[g].resource
  {
    var h := FirstSeen(Hashes(es, hash))[g];
    var own := OfHash(es, hash, h);
    assert GroupIs(logs[g], own);
    OfHashMembers(es, hash, h);
    OfScopeMembers(own, logs[g].scopes[s].name);
    assert own[0] in own;
  }

  /** Entries end up under their own resource exactly when no two of their resources share a hash. */
  lemma OwnResourceIffNoCollision(logs: seq<ResourceLogs>, es: seq<Entry>, hash: nat -> nat)
    requires Grouped(logs, es, hash)
    ensures UnderOwnResource(logs) <==> NoCollision(es, hash)
  {
    if UnderOwnResource(logs) {
      forall i, j | 0 <= i < |es| && 0 <= j < |es| && hash(es[i].resource) == hash(es[j].resource)
        ensures es[i].resource == es[j].resource
      {
        var g, s := Position(logs, es, hash, i);
        var k, t := Position(logs, es, hash, j);
        FirstSeenDistinct(Hashes(es, hash));
        assert g == k;
      }
    }
    if NoCollision(es, hash) {
      forall g, s, e | 0 <= g < |logs| && 0 <= s < |logs[g].scopes| && e in logs[g].scopes[s].records
        ensures e.resource == logs[g].resource
      {
        InGroup(logs, es, hash, g, s, e);
        var first :| first in es && hash(first.resource) == FirstSeen(Hashes(es, hash))[g]
            && first.resource == logs[g].resource;
        var i :| 0 <= i < |es| && es[i] == e;
        var j :| 0 <= j < |es| && es[j] == first;
      }
    }
  }

  // ---- Nothing is lost or doubled -----------------------------------------------------------------------------

  function InScope(x: Entry): ScopeLogs -> nat { (s: ScopeLogs) => Count(s.records, x) }

  function InResource(x: Entry): ResourceLogs -> nat { (g: ResourceLogs) => Total(g.scopes, InScope(x)) }

  /** How often an entry occurs in the output. */
  function Occurrences(logs: seq<ResourceLogs>, x: Entry): nat { Total(logs, InResource(x)) }

  lemma {:induction false} CountOfScope(es: seq<Entry>, scope: string, x: Entry)
    ensures Count(OfScope(es, scope), x) == if x.scope == scope then Count(es, x) else 0
  {
    if es != [] {
      var n := |es| - 1;
      CountOfScope(es[..n], scope, x);
      assert es == es[..n] + [es[n]];
      CountSnoc(es[..n], es[n], x);
      CountSnoc(OfScope(es[..n], scope), es[n], x);
      assert OfScope(es[..n], scope) + [] == OfScope(es[..n], scope);
    }
  }

  lemma {:induction false} CountOfHash(es: seq<Entry>, hash: nat -> nat, h: nat, x: Entry)
    ensures Count(OfHash(es, hash, h), x) == if hash(x.resource) == h then Count(es, x) else 0
  {
    if es != [] {
      var n := |es| - 1;
      CountOfHash(es[..n], hash, h, x);
      assert es == es[..n] + [es[n]];
      CountSnoc(es[..n], es[n], x);
      CountSnoc(OfHash(es[..n], hash, h), es[n], x);
      assert OfHash(es[..n], hash, h) + [] == OfHash(es[..n], hash, h);
    }
  }

  /** A total to which one entry, at most, contributes. */
  lemma {:induction false} OnlyOne<T>(ts: seq<T>, n: nat, i: nat, f: T -> nat)
    requires n <= |ts| && forall k :: 0 <= k < n && k != i ==> f(ts[k]) == 0
    ensures TotalTo(ts, n, f) == if i < n then f(ts[i]) else 0
  {
    if n > 0 {
      OnlyOne(ts, n - 1, i, f);
    }
  }

  lemma GroupCounts(g: ResourceLogs, es: seq<Entry>, x: Entry)
    requires GroupIs(g, es)
    ensures InResource(x)(g) == Count(es, x)
  {
    var names := FirstSeen(Scopes(es));
    FirstSeenDistinct(Scopes(es));
    forall s | 0 <= s < |g.scopes|
      ensures InScope(x)(g.scopes[s]) == if names[s] == x.scope then Count(es, x) else 0
    {
      CountOfScope(es, names[s], x);
    }
    hide FirstSeen, OfScope, Scopes, Count, InScope;
    if x.scope in names {
      var s :| 0 <= s < |names| && names[s] == x.scope;
      OnlyOne(g.scopes, |g.scopes|, s, InScope(x));
    } else {
      Absent(es, x);
      OnlyOne(g.scopes, |g.scopes|, |g.scopes|, InScope(x));
    }
  }

  lemma Absent(es: seq<Entry>, x: Entry)
    requires x.scope !in FirstSeen(Scopes(es))
    ensures Count(es, x) == 0
  {
    OfScopeEmpty(es, x.scope);
    CountOfScope(es, x.scope, x);
    assert Count<Entry>([], x) == 0;
  }

  /** The output holds every entry as often as the input does. */
  lemma NothingLost(logs: seq<ResourceLogs>, es: seq<Entry>, hash: nat -> nat, x: Entry)
    requires Grouped(logs, es, hash)
    ensures Occurrences(logs, x) == Count(es, x)
  {
    hide FirstSeen, OfHash, Hashes, Count, InResource, GroupIs;
    var hs, h := FirstSeen(Hashes(es, hash)), hash(x.resource);
    FirstSeenDistinct(Hashes(es, hash));
    forall g | 0 <= g < |logs|
      ensures InResource(x)(logs[g]) == if hs[g] == h then Count(es, x) else 0
    {
      GroupCounts(logs[g], OfHash(es, hash, hs[g]), x);
      CountOfHash(es, hash, hs[g], x);
    }
    if h in hs {
      var g :| 0 <= g < |hs| && hs[g] == h;
      OnlyOne(logs, |logs|, g, InResource(x));
    } else {
      NoneOfHash(es, hash, x);
      OnlyOne(logs, |logs|, |logs|, InResource(x));
    }
  }

  lemma NoneOfHash(es: seq<Entry>, hash: nat -> nat, x: Entry)
    requires hash(x.resource) !in FirstSeen(Hashes(es, hash))
    ensures Count(es, x) == 0
  {
    OfHashEmpty(es, hash, hash(x.resource));
    CountOfHash(es, hash, hash(x.resource), x);
    assert Count<Entry>([], x) == 0;
  }
}
