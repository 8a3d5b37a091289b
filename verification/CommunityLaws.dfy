// Communities through a 3-way merge: which survive, how they are numbered, and that their
// members keep their names (crates/habitat-graph-build/src/merge_driver.rs:282-342).

module CommunityLaws {
  import opened Ids
  import opened Lists
  import opened Schema
  import opened Interning
  import opened Pipeline
  import opened Rebuild
  import opened Merge
  import opened MergeDriver
  import opened MergeLaws

  lemma {:induction false} MergedCommunitiesMeaning(survivors: set<string>, s: Sides, chain: seq<Community>)
    requires forall name :: name in s.oursByName ==> s.oursByName[name].name == name
    ensures Keys(CommunityNameOf, MergedCommunities(survivors, s, chain)) == Keys(CommunityNameOf, chain) * survivors
    ensures DistinctBy(CommunityNameOf, MergedCommunities(survivors, s, chain))
    ensures forall i :: 0 <= i < |MergedCommunities(survivors, s, chain)| ==>
              MergedCommunities(survivors, s, chain)[i].id == SaturatedId(i)
    ensures forall c :: c in MergedCommunities(survivors, s, chain) ==>
              c.name in Keys(CommunityNameOf, chain)
              && c == Remapped(s, FirstBy(CommunityNameOf, chain, c.name), c.id)
  {
    if chain != [] {
      var done, c := MergedCommunities(survivors, s, Init(chain)), Last(chain);
      MergedCommunitiesMeaning(survivors, s, Init(chain));
      KeysSnoc(CommunityNameOf, chain);
      if c.name !in Keys(CommunityNameOf, Init(chain)) && c.name in survivors {
        KeysOneMore(CommunityNameOf, done, Remapped(s, c, SaturatedId(|done|)));
        DistinctOneMore(CommunityNameOf, done, Remapped(s, c, SaturatedId(|done|)));
      }
    }
  }

  lemma NumberedCommunitiesSorted(cs: seq<Community>)
    requires forall i :: 0 <= i < |cs| ==> cs[i].id == SaturatedId(i)
    ensures SortBy(CommunityLe, cs) == cs
  {
    SortOfSorted(CommunityLe, cs);
  }

  lemma SortingMembersKeepsHeads(cs: seq<Community>)
    ensures Keys(CommunityNameOf, Map(SortedMembers, cs)) == Keys(CommunityNameOf, cs)
    ensures DistinctBy(CommunityNameOf, cs) ==> DistinctBy(CommunityNameOf, Map(SortedMembers, cs))
  {
    var sorted := Map(SortedMembers, cs);
    forall c | c in sorted
      ensures c.name in Keys(CommunityNameOf, cs)
    {
      var i :| 0 <= i < |sorted| && sorted[i] == c;
      assert cs[i] in cs;
    }
    forall c | c in cs
      ensures c.name in Keys(CommunityNameOf, sorted)
    {
      var i :| 0 <= i < |cs| && cs[i] == c;
      assert sorted[i] in sorted;
    }
  }

  ghost function SidesOf(h: ContentId, base: Graph, ours: Graph, theirs: Graph): Sides {
    Sides(CommunitiesByName(ours.communities), NamesById(ours.nodes), NamesById(theirs.nodes),
          IdsByName(Interned(h, WonRaws(base, ours, theirs))))
  }

  lemma OutputCommunities(h: ContentId, base: Graph, ours: Graph, theirs: Graph)
    ensures Merged3(h, base, ours, theirs).communities == Map(SortedMembers, WonCommunities(h, base, ours, theirs))
  {
    CommunitiesByNameMeaning(ours.communities);
    MergedCommunitiesMeaning(SurvivingCommunities(base, ours, theirs), SidesOf(h, base, ours, theirs),
                             ours.communities + theirs.communities);
    NumberedCommunitiesSorted(WonCommunities(h, base, ours, theirs));
  }

  ghost function NamedAmong(names: set<string>): Community -> bool {
    (c: Community) => c.name in names
  }

  lemma {:induction false} CommunityOrder(survivors: set<string>, s: Sides, chain: seq<Community>)
    requires forall name :: name in s.oursByName ==> s.oursByName[name].name == name
    ensures Map(CommunityNameOf, MergedCommunities(survivors, s, chain)) ==
            Map(CommunityNameOf, DedupBy(CommunityNameOf, Filter(NamedAmong(survivors), chain)))
  {
    if chain != [] {
      var init, c := Init(chain), Last(chain);
      var done, kept := MergedCommunities(survivors, s, init), Filter(NamedAmong(survivors), init);
      CommunityOrder(survivors, s, init);
      if c.name in survivors {
        Snoc(kept, c);
        DedupMeaning(CommunityNameOf, kept);
        NamesAmong(survivors, init, c.name);
        if c.name !in Keys(CommunityNameOf, init) {
          MapAppend(CommunityNameOf, done, [Remapped(s, c, SaturatedId(|done|))]);
          MapAppend(CommunityNameOf, DedupBy(CommunityNameOf, kept), [c]);
        }
      }
    }
  }

  lemma NamesAmong(survivors: set<string>, chain: seq<Community>, name: string)
    requires name in survivors
    ensures name in Keys(CommunityNameOf, Filter(NamedAmong(survivors), chain)) <==> name in Keys(CommunityNameOf, chain)
  {
    FilterMembers(NamedAmong(survivors), chain);
    if name in Keys(CommunityNameOf, chain) {
      var c :| c in chain && CommunityNameOf(c) == name;
      assert c in Filter(NamedAmong(survivors), chain);
    }
  }

  /** The communities of a merge: one for each surviving community name, in order of first
      occurrence in ours and then theirs, numbered 0, 1, 2, ... up to the last id. */
  lemma Merged3Communities(h: ContentId, base: Graph, ours: Graph, theirs: Graph)
    ensures Keys(CommunityNameOf, Merged3(h, base, ours, theirs).communities) == SurvivingCommunities(base, ours, theirs)
    ensures DistinctBy(CommunityNameOf, Merged3(h, base, ours, theirs).communities)
    ensures Map(CommunityNameOf, Merged3(h, base, ours, theirs).communities) ==
            Map(CommunityNameOf, DedupBy(CommunityNameOf, Filter(NamedAmong(SurvivingCommunities(base, ours, theirs)),
                                                                 ours.communities + theirs.communities)))
    ensures forall i :: 0 <= i < |Merged3(h, base, ours, theirs).communities| ==>
              Merged3(h, base, ours, theirs).communities[i].id == if i < 0x1_0000_0000 then i else 0xFFFF_FFFF
  {
    var survivors, s := SurvivingCommunities(base, ours, theirs), SidesOf(h, base, ours, theirs);
    var chain := ours.communities + theirs.communities;
    CommunitiesByNameMeaning(ours.communities);
    MergedCommunitiesMeaning(survivors, s, chain);
    CommunityOrder(survivors, s, chain);
    KeysAppend(CommunityNameOf, ours.communities, theirs.communities);
    OutputCommunities(h, base, ours, theirs);
    SortingMembersKeepsHeads(WonCommunities(h, base, ours, theirs));
    SameNamesSorted(WonCommunities(h, base, ours, theirs));
  }

  lemma SameNamesSorted(cs: seq<Community>)
    ensures Map(CommunityNameOf, Map(SortedMembers, cs)) == Map(CommunityNameOf, cs)
  {
  }

  /** The schema of a merge is that of ours; its manifest combines both. */
  lemma Merged3KeepsTheRest(h: ContentId, base: Graph, ours: Graph, theirs: Graph)
    ensures Merged3(h, base, ours, theirs).schema == ours.schema
    ensures ManifestOfBoth(Merged3(h, base, ours, theirs).manifest, ours.manifest, theirs.manifest)
  {
  }

  // ---------------------------------------------------------------- members

  ghost function NameIfKnown(names: map<NodeId, string>): NodeId -> seq<string> {
    (m: NodeId) => if m in names then [names[m]] else []
  }

  /** The names of those members that are nodes of the table, in order, with repetitions. */
  ghost function MemberNames(names: map<NodeId, string>, members: seq<NodeId>): seq<string> {
    FlatMap(NameIfKnown(names), members)
  }

  ghost function Among(names: set<string>): string -> bool {
    (name: string) => name in names
  }

  lemma {:induction false} RemapKeepsNames(names: map<NodeId, string>, ids: map<string, NodeId>,
                                           out: map<NodeId, string>, members: seq<NodeId>)
    requires forall name :: name in ids ==> ids[name] in out && out[ids[name]] == name
    ensures MemberNames(out, RemapMembers(names, ids, members)) == Filter(Among(ids.Keys), MemberNames(names, members))
    ensures forall m :: m in RemapMembers(names, ids, members) ==> m in out
  {
    if members != [] {
      var done, m := RemapMembers(names, ids, Init(members)), Last(members);
      var known := MemberNames(names, Init(members));
      RemapKeepsNames(names, ids, out, Init(members));
      if m in names {
        FilterAppend(Among(ids.Keys), known, [names[m]]);
        FilterOne(Among(ids.Keys), names[m]);
        if names[m] in ids {
          Snoc(done, ids[names[m]]);
        }
      } else {
        assert known + [] == known;
      }
    }
  }

  /** Where the members of a merged community come from: ours if it has the community (its last
      one of that name), else the first of theirs. */
  ghost function SourceMemberNames(ours: Graph, theirs: Graph, name: string): seq<string>
    requires name in Keys(CommunityNameOf, ours.communities + theirs.communities)
  {
    if name in CommunitiesByName(ours.communities)
    then MemberNames(NamesById(ours.nodes), CommunitiesByName(ours.communities)[name].members)
    else MemberNames(NamesById(theirs.nodes), FirstBy(CommunityNameOf, ours.communities + theirs.communities, name).members)
  }

  lemma WonMembers(h: ContentId, base: Graph, ours: Graph, theirs: Graph, c: Community)
    returns (names: map<NodeId, string>, source: seq<NodeId>)
    requires c in WonCommunities(h, base, ours, theirs)
    ensures c.name in Keys(CommunityNameOf, ours.communities + theirs.communities)
    ensures c.members == RemapMembers(names, IdsByName(Interned(h, WonRaws(base, ours, theirs))), source)
    ensures MemberNames(names, source) == SourceMemberNames(ours, theirs, c.name)
  {
    var s, chain := SidesOf(h, base, ours, theirs), ours.communities + theirs.communities;
    CommunitiesByNameMeaning(ours.communities);
    MergedCommunitiesMeaning(SurvivingCommunities(base, ours, theirs), s, chain);
    if c.name in s.oursByName {
      names, source := s.oursNames, s.oursByName[c.name].members;
    } else {
      names, source := s.theirsNames, FirstBy(CommunityNameOf, chain, c.name).members;
    }
  }

  lemma MergedTables(h: ContentId, base: Graph, ours: Graph, theirs: Graph)
    requires |SurvivingNames(base, ours, theirs)| <= U32_SIZE
    ensures var ids, out := IdsByName(Interned(h, WonRaws(base, ours, theirs))), NamesById(Merged3(h, base, ours, theirs).nodes);
            && ids.Keys == SurvivingNames(base, ours, theirs)
            && out.Keys == Keys(NodeIdOf, Merged3(h, base, ours, theirs).nodes)
            && forall name :: name in ids ==> ids[name] in out && out[ids[name]] == name
  {
    var g := Merged3(h, base, ours, theirs);
    WonNames(base, ours, theirs);
    BuiltNodesMeaning(h, WonRaws(base, ours, theirs));
    TableKeys(g.nodes);
    TablesInverse(h, g.nodes);
  }

  /** Members keep their names through the renumbering: exactly the named members whose node
      survived are members of the merged community, each as often as in its source, and all
      members are nodes of the merge. */
  lemma Merged3Members(h: ContentId, base: Graph, ours: Graph, theirs: Graph, c: Community)
    requires |SurvivingNames(base, ours, theirs)| <= U32_SIZE
    ensures c in Merged3(h, base, ours, theirs).communities ==>
              && c.name in Keys(CommunityNameOf, ours.communities + theirs.communities)
              && (forall m :: m in c.members ==> m in Keys(NodeIdOf, Merged3(h, base, ours, theirs).nodes))
              && multiset(MemberNames(NamesById(Merged3(h, base, ours, theirs).nodes), c.members)) ==
                 multiset(Filter(Among(SurvivingNames(base, ours, theirs)), SourceMemberNames(ours, theirs, c.name)))
  {
    var won, out := WonCommunities(h, base, ours, theirs), NamesById(Merged3(h, base, ours, theirs).nodes);
    OutputCommunities(h, base, ours, theirs);
    MergedTables(h, base, ours, theirs);
    if c in Merged3(h, base, ours, theirs).communities {
      var i :| 0 <= i < |won| && SortedMembers(won[i]) == c;
      SortMembers(IdLe, won[i].members);
      SortMultiset(IdLe, won[i].members);
      FlatMapMultiset(NameIfKnown(out), c.members, won[i].members);
      var names, source := WonMembers(h, base, ours, theirs, won[i]);
      RemapKeepsNames(names, IdsByName(Interned(h, WonRaws(base, ours, theirs))), out, source);
    }
  }

  /** Nothing in the output of a merge dangles, whatever dangled in its inputs. */
  lemma Merged3Integrity(h: ContentId, base: Graph, ours: Graph, theirs: Graph)
    requires |SurvivingNames(base, ours, theirs)| <= U32_SIZE
    ensures var g := Merged3(h, base, ours, theirs);
            && NoDangling(g)
            && forall c, m :: c in g.communities && m in c.members ==> m in Keys(NodeIdOf, g.nodes)
  {
    Merged3Meaning(h, base, ours, theirs);
    forall c | c in Merged3(h, base, ours, theirs).communities {
      Merged3Members(h, base, ours, theirs, c);
    }
  }
}
