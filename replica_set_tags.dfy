/**
 * The replica-set member records of `local.system.replset` and the two
 * computations MongoUtils makes over their tags: setupAllTags, which lists
 * every distinct `"name" : "value"` tag of the set, and
 * checkForReplicaSetMembersThatSatisfyTagSets, which keeps the members whose
 * tags satisfy at least one requested tag set.
 */
module ReplicaSetTags {
  import opened Wrappers
  import opened JavaUtil
  import opened TagQuoting

  /** The tags of a member, each value as its toString() image. */
  type Tags = map<string, string>

  /** A requested tag set: every name must be present with exactly this value. */
  type TagSet = map<string, string>

  /**
   * One member record. `id` stands for the rest of the record's document
   * (its `_id` and other fields), so two records are equal exactly when
   * their documents are, as with DBObject.equals.
   */
  datatype Member = Member(id: int, host: Option<string>, tags: Option<Tags>)

  // ---------------------------------------------------------------------
  // setupAllTags
  // ---------------------------------------------------------------------

  /** The entries one member record contributes: none for a null record or a record without tags. */
  function MemberTagStrings(m: Option<Member>): set<string>
  {
    if m.Some? && m.value.tags.Some? then
      var tags := m.value.tags.value;
      set n | n in tags :: Combined(n, tags[n])
    else {}
  }

  /** Every entry contributed by some record of the list. */
  function AllTagStrings(members: seq<Option<Member>>): set<string>
    decreases |members|
  {
    if members == [] then {}
    else AllTagStrings(members[..|members| - 1]) + MemberTagStrings(members[|members| - 1])
  }

  /** Member record m is non-null, has a tags document, and that document maps n to v. */
  predicate CarriesTag(m: Option<Member>, n: string, v: string)
  {
    m.Some? && m.value.tags.Some? && n in m.value.tags.value && m.value.tags.value[n] == v
  }

  /**
   * MongoUtils.setupAllTags: gathers the serialised tags of every member
   * into a hash set, then appends the set's elements (in no particular
   * order) to allTags.
   */
  method SetupAllTags(members: seq<Option<Member>>, allTags: ArrayList<string>)
    modifies allTags
    ensures |allTags.elems| >= |old(allTags.elems)|
    ensures allTags.elems[..|old(allTags.elems)|] == old(allTags.elems)
    ensures Distinct(allTags.elems[|old(allTags.elems)|..])
    ensures Elements(allTags.elems[|old(allTags.elems)|..]) == AllTagStrings(members)
  {
    var tempTags: set<string> := {};
    var i := 0;
    while i < |members|
      invariant 0 <= i <= |members|
      invariant tempTags == AllTagStrings(members[..i])
    {
      var m := members[i];
      if m.Some? {
        var tags := m.value.tags;
        if tags.Some? {
          var names := tags.value.Keys;
          ghost var before := tempTags;
          while names != {}
            invariant names <= tags.value.Keys
            invariant tempTags == before + set n | n in tags.value && n !in names :: Combined(n, tags.value[n])
          {
            var tagName :| tagName in names;
            var tagVal := tags.value[tagName];
            var combined := Quote(tagName) + " : " + Quote(tagVal);
            tempTags := tempTags + {combined};
            names := names - {tagName};
          }
        }
      }
      assert members[..i + 1][..i] == members[..i];
      i := i + 1;
    }
    assert members[..|members|] == members;

    ghost var prior := allTags.elems;
    var rest := tempTags;
    while rest != {}
      invariant rest <= tempTags
      invariant |allTags.elems| >= |prior| && allTags.elems[..|prior|] == prior
      invariant Distinct(allTags.elems[|prior|..])
      invariant Elements(allTags.elems[|prior|..]) == tempTags - rest
    {
      var s :| s in rest;
      ghost var added := allTags.elems[|prior|..];
      allTags.Add(s);
      assert allTags.elems[|prior|..] == added + [s];
      assert Elements(added + [s]) == Elements(added) + {s};
      rest := rest - {s};
    }
  }

  lemma {:induction false} AllTagStringsAppend(a: seq<Option<Member>>, b: seq<Option<Member>>)
    ensures AllTagStrings(a + b) == AllTagStrings(a) + AllTagStrings(b)
    decreases |b|
  {
    if b == [] {
      assert a + b == a;
    } else {
      var b' := b[..|b| - 1];
      AllTagStringsAppend(a, b');
      assert (a + b)[..|a + b| - 1] == a + b';
    }
  }

  /**
   * The aggregated tags are sound and complete: an entry is listed exactly
   * when some non-null member with a tags document carries a tag n with
   * value v whose serialisation it is.
   */
  lemma {:induction false} AllTagStringsExactly(members: seq<Option<Member>>, s: string)
    ensures s in AllTagStrings(members) <==>
      exists i, n, v :: 0 <= i < |members| && CarriesTag(members[i], n, v) && s == Combined(n, v)
    decreases |members|
  {
    if members != [] {
      var k := |members| - 1;
      var front := members[..k];
      AllTagStringsExactly(front, s);
      MemberTagStringsExactly(members[k], s);
      assert AllTagStrings(members) == AllTagStrings(front) + MemberTagStrings(members[k]);
      if s in AllTagStrings(front) {
        var i, n, v :| 0 <= i < |front| && CarriesTag(front[i], n, v) && s == Combined(n, v);
        assert front[i] == members[i];
        assert 0 <= i < |members| && CarriesTag(members[i], n, v) && s == Combined(n, v);
      } else if s in MemberTagStrings(members[k]) {
        var n, v :| CarriesTag(members[k], n, v) && s == Combined(n, v);
        assert 0 <= k < |members| && CarriesTag(members[k], n, v) && s == Combined(n, v);
      }
      if exists i, n, v :: 0 <= i < |members| && CarriesTag(members[i], n, v) && s == Combined(n, v) {
        var i, n, v :| 0 <= i < |members| && CarriesTag(members[i], n, v) && s == Combined(n, v);
        if i < k {
          assert front[i] == members[i];
          assert s in AllTagStrings(front);
        } else {
          assert s in MemberTagStrings(members[k]);
        }
      }
    }
  }

  /** One member contributes an entry exactly when it carries a tag serialised as that entry. */
  lemma MemberTagStringsExactly(m: Option<Member>, s: string)
    ensures s in MemberTagStrings(m) <==> exists n, v :: CarriesTag(m, n, v) && s == Combined(n, v)
  {
    if s in MemberTagStrings(m) {
      var tags := m.value.tags.value;
      var n :| n in tags && s == Combined(n, tags[n]);
      assert CarriesTag(m, n, tags[n]);
    }
  }

  /** A null record, or a record without a tags document, contributes nothing wherever it stands. */
  lemma UntaggedMemberContributesNothing(before: seq<Option<Member>>, m: Option<Member>, after: seq<Option<Member>>)
    requires m.None? || m.value.tags.None?
    ensures AllTagStrings(before + [m] + after) == AllTagStrings(before + after)
  {
    AllTagStringsAppend(before + [m], after);
    AllTagStringsAppend(before, [m]);
    AllTagStringsAppend(before, after);
    assert AllTagStrings([m]) == AllTagStrings([]) + MemberTagStrings(m);
  }

  // ---------------------------------------------------------------------
  // checkForReplicaSetMembersThatSatisfyTagSets
  // ---------------------------------------------------------------------

  /** A member's tags satisfy a tag set: each of its names is present with the same value. */
  predicate SatisfiesTagSet(tags: Tags, toMatch: TagSet)
  {
    forall n :: n in toMatch ==> n in tags && tags[n] == toMatch[n]
  }

  /** A record qualifies: non-null, with a tags document, satisfying at least one of the tag sets. */
  predicate Qualifies(m: Option<Member>, tagSets: seq<TagSet>)
  {
    m.Some? && m.value.tags.Some? &&
    exists j :: 0 <= j < |tagSets| && SatisfiesTagSet(m.value.tags.value, tagSets[j])
  }

  /**
   * The list the matcher leaves behind when it starts from acc: each
   * qualifying record, taken in list order, is appended unless the list
   * already contains it.
   */
  function MatchAppend(acc: seq<Member>, tagSets: seq<TagSet>, members: seq<Option<Member>>): seq<Member>
    decreases |members|
  {
    if members == [] then acc
    else
      var r := MatchAppend(acc, tagSets, members[..|members| - 1]);
      var m := members[|members| - 1];
      if Qualifies(m, tagSets) && m.value !in r then r + [m.value] else r
  }

  /**
   * The inner loop of the matcher over the names of one tag set: stops at
   * the first name the member lacks or carries with another value.
   */
  method TagSetSatisfied(tags: Tags, toMatch: TagSet) returns (matched: bool)
    ensures matched <==> SatisfiesTagSet(tags, toMatch)
  {
    matched := true;
    var names := toMatch.Keys;
    while names != {}
      invariant names <= toMatch.Keys
      invariant forall n :: n in toMatch && n !in names ==> n in tags && tags[n] == toMatch[n]
    {
      var tagName :| tagName in names;
      var tagValue := toMatch[tagName];
      if tagName !in tags {
        matched := false;
        break;
      }
      if tags[tagName] != tagValue {
        matched := false;
        break;
      }
      names := names - {tagName};
    }
  }

  /**
   * MongoUtils.checkForReplicaSetMembersThatSatisfyTagSets: for each
   * non-null member with a tags document and each tag set it satisfies,
   * appends the member to satisfy unless satisfy already contains it.
   */
  method CheckForReplicaSetMembersThatSatisfyTagSets(tagSets: seq<TagSet>, satisfy: ArrayList<Member>, members: seq<Option<Member>>)
    modifies satisfy
    ensures satisfy.elems == MatchAppend(old(satisfy.elems), tagSets, members)
  {
    var i := 0;
    while i < |members|
      invariant 0 <= i <= |members|
      invariant satisfy.elems == MatchAppend(old(satisfy.elems), tagSets, members[..i])
    {
      var m := members[i];
      assert members[..i + 1][..i] == members[..i];
      if m.Some? {
        var tags := m.value.tags;
        if tags.Some? {
          ghost var before := satisfy.elems;
          var j := 0;
          while j < |tagSets|
            invariant 0 <= j <= |tagSets|
            invariant satisfy.elems ==
              if (exists k :: 0 <= k < j && SatisfiesTagSet(tags.value, tagSets[k])) && m.value !in before
              then before + [m.value] else before
          {
            var matched := TagSetSatisfied(tags.value, tagSets[j]);
            if matched {
              if !satisfy.Contains(m.value) {
                satisfy.Add(m.value);
              }
            }
            j := j + 1;
          }
        }
      }
      i := i + 1;
    }
    assert members[..|members|] == members;
  }

  /** The matcher only appends: the prior contents stay in front and at most one entry is added per member. */
  lemma {:induction false} MatchAppendExtends(acc: seq<Member>, tagSets: seq<TagSet>, members: seq<Option<Member>>)
    ensures var r := MatchAppend(acc, tagSets, members);
      |acc| <= |r| <= |acc| + |members| && r[..|acc|] == acc
    decreases |members|
  {
    if members != [] {
      MatchAppendExtends(acc, tagSets, members[..|members| - 1]);
    }
  }

  /**
   * Soundness and completeness of the matcher: a record ends up in the list
   * exactly when it was there before or it is a member of the list that is
   * non-null, has a tags document and satisfies some tag set.
   */
  lemma {:induction false} MatchAppendMembership(acc: seq<Member>, tagSets: seq<TagSet>, members: seq<Option<Member>>, x: Member)
    ensures x in MatchAppend(acc, tagSets, members) <==>
      x in acc || exists i :: 0 <= i < |members| && members[i] == Some(x) && Qualifies(members[i], tagSets)
    decreases |members|
  {
    if members != [] {
      var k := |members| - 1;
      var front := members[..k];
      MatchAppendMembership(acc, tagSets, front, x);
      if exists i :: 0 <= i < |front| && front[i] == Some(x) && Qualifies(front[i], tagSets) {
        var i :| 0 <= i < |front| && front[i] == Some(x) && Qualifies(front[i], tagSets);
        assert members[i] == front[i];
      }
      if exists i :: 0 <= i < |members| && members[i] == Some(x) && Qualifies(members[i], tagSets) {
        var i :| 0 <= i < |members| && members[i] == Some(x) && Qualifies(members[i], tagSets);
        if i < k {
          assert front[i] == members[i];
        }
      }
    }
  }

  /** No entry is added twice, and none that the list already held. */
  lemma {:induction false} MatchAppendAddsNoDuplicate(acc: seq<Member>, tagSets: seq<TagSet>, members: seq<Option<Member>>)
    ensures var r := MatchAppend(acc, tagSets, members);
      forall p :: |acc| <= p < |r| ==> r[p] !in r[..p]
    decreases |members|
  {
    if members != [] {
      var front := members[..|members| - 1];
      MatchAppendAddsNoDuplicate(acc, tagSets, front);
      MatchAppendExtends(acc, tagSets, front);
      var r' := MatchAppend(acc, tagSets, front);
      var r := MatchAppend(acc, tagSets, members);
      if r != r' {
        assert r == r' + [members[|members| - 1].value];
        assert r[..|r'|] == r';
        assert forall p :: |acc| <= p < |r'| ==> r[..p] == r'[..p];
      }
    }
  }

  /** When the list held no duplicate before the call, it holds none after it. */
  lemma MatchAppendDistinct(acc: seq<Member>, tagSets: seq<TagSet>, members: seq<Option<Member>>)
    requires Distinct(acc)
    ensures Distinct(MatchAppend(acc, tagSets, members))
  {
    var r := MatchAppend(acc, tagSets, members);
    MatchAppendAddsNoDuplicate(acc, tagSets, members);
    MatchAppendExtends(acc, tagSets, members);
    forall i, j | 0 <= i < j < |r| ensures r[i] != r[j] {
      if j < |acc| {
        assert r[i] == acc[i] && r[j] == acc[j];
      } else {
        assert r[i] == r[..j][i];
      }
    }
  }

  /** The position of the first occurrence of x in s. */
  function FirstIndex<T(==)>(s: seq<T>, x: T): (i: nat)
    requires x in s
    ensures i < |s| && s[i] == x
  {
    if s[0] == x then 0 else 1 + FirstIndex(s[1..], x)
  }

  lemma {:induction false} FirstIndexInPrefix<T>(s: seq<T>, k: nat, x: T)
    requires k <= |s| && x in s[..k]
    ensures FirstIndex(s, x) == FirstIndex(s[..k], x)
  {
    if s[0] != x {
      assert s[1..][..k - 1] == s[..k][1..];
      FirstIndexInPrefix(s[1..], k - 1, x);
    }
  }

  lemma {:induction false} FirstIndexOfNewLast<T>(s: seq<T>, x: T)
    requires s != [] && s[|s| - 1] == x && x !in s[..|s| - 1]
    ensures FirstIndex(s, x) == |s| - 1
  {
    if |s| > 1 {
      assert s[0] == s[..|s| - 1][0];
      assert s[1..][..|s| - 2] == s[..|s| - 1][1..];
      FirstIndexOfNewLast(s[1..], x);
    }
  }

  /**
   * The matcher keeps the members' order: every added entry is a member of
   * the list, and entries are added in the order of their first occurrence
   * in the member list.
   */
  lemma {:induction false} MatchAppendKeepsMemberOrder(acc: seq<Member>, tagSets: seq<TagSet>, members: seq<Option<Member>>)
    ensures var r := MatchAppend(acc, tagSets, members);
      && (forall p :: |acc| <= p < |r| ==> Some(r[p]) in members)
      && (forall p, q :: |acc| <= p < q < |r| ==>
            Some(r[p]) in members && Some(r[q]) in members &&
            FirstIndex(members, Some(r[p])) < FirstIndex(members, Some(r[q])))
    decreases |members|
  {
    if members != [] {
      var n := |members|;
      var front := members[..n - 1];
      var m := members[n - 1];
      MatchAppendKeepsMemberOrder(acc, tagSets, front);
      MatchAppendExtends(acc, tagSets, front);
      var r' := MatchAppend(acc, tagSets, front);
      var r := MatchAppend(acc, tagSets, members);
      assert members == front + [m];
      forall p | |acc| <= p < |r'|
        ensures Some(r'[p]) in members && FirstIndex(members, Some(r'[p])) == FirstIndex(front, Some(r'[p]))
      {
        FirstIndexInPrefix(members, n - 1, Some(r'[p]));
      }
      if r != r' {
        assert r == r' + [m.value];
        forall i | 0 <= i < |front| ensures front[i] != m {
          if front[i] == m {
            MatchAppendMembership(acc, tagSets, front, m.value);
          }
        }
        FirstIndexOfNewLast(members, m);
      }
    }
  }

  /**
   * The edge cases of one member: without a tags document it is never
   * added, not even for an empty tag set; with a tags document it is added
   * for an empty tag set; with an empty tags document it is added exactly
   * when an empty tag set is requested.
   */
  lemma MatchOneMember(acc: seq<Member>, tagSets: seq<TagSet>, m: Member)
    requires m !in acc
    ensures m.tags.None? ==> MatchAppend(acc, tagSets, [Some(m)]) == acc
    ensures m.tags.Some? && map[] in tagSets ==> MatchAppend(acc, tagSets, [Some(m)]) == acc + [m]
    ensures m.tags == Some(map[]) ==>
      (MatchAppend(acc, tagSets, [Some(m)]) == acc + [m] <==> map[] in tagSets)
  {
    assert [Some(m)][..0] == [];
    if m.tags.Some? && map[] in tagSets {
      var j :| 0 <= j < |tagSets| && tagSets[j] == map[];
      assert SatisfiesTagSet(m.tags.value, tagSets[j]);
    }
    if m.tags == Some(map[]) && Qualifies(Some(m), tagSets) {
      var j :| 0 <= j < |tagSets| && SatisfiesTagSet(map[], tagSets[j]);
      assert tagSets[j].Keys == {};
      assert tagSets[j] == map[];
    }
  }

  /** Member a of the two-member examples: tagged dc east and role secondary. */
  function ExampleMemberA(): Member
  {
    Member(0, Some("a:27017"), Some(map["dc" := "east", "role" := "secondary"]))
  }

  /** Member b of the two-member examples: tagged dc west. */
  function ExampleMemberB(): Member
  {
    Member(1, Some("b:27017"), Some(map["dc" := "west"]))
  }

  /**
   * Asking for dc east selects member a only; asking for dc east or dc
   * west selects both, in member order.
   */
  lemma TwoMemberMatchExample()
    ensures var a, b := ExampleMemberA(), ExampleMemberB();
      && MatchAppend([], [map["dc" := "east"]], [Some(a), Some(b)]) == [a]
      && MatchAppend([], [map["dc" := "east"], map["dc" := "west"]], [Some(a), Some(b)]) == [a, b]
  {
    var a, b := ExampleMemberA(), ExampleMemberB();
    var ms := [Some(a), Some(b)];
    var east, west := map["dc" := "east"], map["dc" := "west"];
    var ts1, ts2 := [east], [east, west];
    assert ms[..1] == [Some(a)] && [Some(a)][..0] == [] && ms[1] == Some(b);
    assert "west" != "east" by { assert "west"[0] != "east"[0]; }
    assert "dc" in east && b.tags.value["dc"] == "west";
    assert !SatisfiesTagSet(b.tags.value, east);
    assert SatisfiesTagSet(b.tags.value, west) && SatisfiesTagSet(a.tags.value, east);
    assert ts2[1] == west && ts1[0] == east && ts2[0] == east;
    assert Qualifies(Some(a), ts1) && !Qualifies(Some(b), ts1);
    assert Qualifies(Some(a), ts2) && Qualifies(Some(b), ts2);
    assert MatchAppend([], ts1, ms[..1]) == [a];
    assert MatchAppend([], ts2, ms[..1]) == [a];
  }

  /** The entries of a member tagged with one name. */
  lemma MemberTagStringsOfOne(m: Member, n: string, v: string)
    requires m.tags == Some(map[n := v])
    ensures MemberTagStrings(Some(m)) == {Combined(n, v)}
  {
    assert m.tags.value.Keys == {n};
  }

  /** The entries of a member tagged with two different names. */
  lemma MemberTagStringsOfTwo(m: Member, n1: string, v1: string, n2: string, v2: string)
    requires n1 != n2 && m.tags == Some(map[n1 := v1, n2 := v2])
    ensures MemberTagStrings(Some(m)) == {Combined(n1, v1), Combined(n2, v2)}
  {
    assert m.tags.value.Keys == {n1, n2};
  }

  /** Three different tags make three different entries. */
  lemma ThreeTagStrings(n1: string, v1: string, n2: string, v2: string, n3: string, v3: string)
    requires (n1, v1) != (n2, v2) && (n1, v1) != (n3, v3) && (n2, v2) != (n3, v3)
    ensures |{Combined(n1, v1), Combined(n2, v2), Combined(n3, v3)}| == 3
  {
    CombinedDiffers(n1, v1, n2, v2);
    CombinedDiffers(n1, v1, n3, v3);
    CombinedDiffers(n2, v2, n3, v3);
  }

  /** The entries of a member with two tags followed by a member with one, as a set. */
  lemma TwoMembersTagStrings(a: Member, b: Member, n1: string, v1: string, n2: string, v2: string, n3: string, v3: string)
    requires n1 != n2 && a.tags == Some(map[n1 := v1, n2 := v2]) && b.tags == Some(map[n3 := v3])
    ensures AllTagStrings([Some(a), Some(b)]) == {Combined(n1, v1), Combined(n2, v2), Combined(n3, v3)}
  {
    var ms := [Some(a), Some(b)];
    assert ms[..1] == [Some(a)] && [Some(a)][..0] == [];
    assert AllTagStrings(ms) == AllTagStrings(ms[..1]) + MemberTagStrings(ms[1]);
    assert AllTagStrings([Some(a)]) == AllTagStrings([]) + MemberTagStrings(Some(a));
    MemberTagStringsOfTwo(a, n1, v1, n2, v2);
    MemberTagStringsOfOne(b, n3, v3);
  }

  /**
   * The aggregated tags of members a and b are three entries, dc east,
   * role secondary and dc west: the two dc tags differ in value, so they
   * are not merged.
   */
  lemma TwoMemberTagsExample()
    ensures AllTagStrings([Some(ExampleMemberA()), Some(ExampleMemberB())]) ==
      {Combined("dc", "east"), Combined("role", "secondary"), Combined("dc", "west")}
    ensures |AllTagStrings([Some(ExampleMemberA()), Some(ExampleMemberB())])| == 3
  {
    assert "dc" != "role" by { assert "dc"[0] != "role"[0]; }
    TwoMembersTagStrings(ExampleMemberA(), ExampleMemberB(), "dc", "east", "role", "secondary", "dc", "west");
    assert "east" != "west" by { assert "east"[0] != "west"[0]; }
    ThreeTagStrings("dc", "east", "role", "secondary", "dc", "west");
  }
}
