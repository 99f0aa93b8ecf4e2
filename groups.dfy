/**
 * `_GROUP_MAP` and `_resolve_groups`: user-facing group names
 * ("clothing", "body", "head", in any ASCII case and with surrounding
 * whitespace) turned into sets of label ids.
 */
module Groups {
  import opened Wrappers
  import opened Labels

  /** Python's `str.isspace` on ASCII: space, tab, line feed, vertical tab, form feed, carriage return and the separators 0x1C-0x1F. */
  predicate IsSpace(c: char)
    ensures IsSpace(c) ==> c as int <= 32
  {
    var n := c as int;
    n == 32 || 9 <= n <= 13 || 28 <= n <= 31
  }

  ghost predicate AllSpace(s: string) {
    forall k :: 0 <= k < |s| ==> IsSpace(s[k])
  }

  /** Number of whitespace characters at the start of s. */
  function LeadingSpaces(s: string): (n: nat)
    ensures n <= |s| && AllSpace(s[..n]) && (n == |s| || !IsSpace(s[n]))
  {
    if s != [] && IsSpace(s[0]) then
      var n := 1 + LeadingSpaces(s[1..]);
      assert s[..n] == [s[0]] + s[1..][..n - 1];
      n
    else 0
  }

  /** Number of whitespace characters at the end of s. */
  function TrailingSpaces(s: string): (n: nat)
    ensures n <= |s| && (forall k :: |s| - n <= k < |s| ==> IsSpace(s[k]))
    ensures n == |s| || !IsSpace(s[|s| - n - 1])
  {
    if s != [] && IsSpace(s[|s| - 1]) then
      1 + TrailingSpaces(s[..|s| - 1])
    else 0
  }

  /** `s.strip()`: what is left neither starts nor ends with whitespace. */
  function Strip(s: string): (r: string)
    ensures |r| <= |s|
    ensures r == [] || (!IsSpace(r[0]) && !IsSpace(r[|r| - 1]))
  {
    var t := s[LeadingSpaces(s)..];
    t[..|t| - TrailingSpaces(t)]
  }

  /**
   * Strip removes exactly the leading and trailing whitespace: what is left
   * is a middle part of s, neither starting nor ending with whitespace.
   */
  lemma StripMeaning(s: string)
    ensures exists i :: (0 <= i <= |s| - |Strip(s)| && Strip(s) == s[i..i + |Strip(s)|] &&
      AllSpace(s[..i]) && AllSpace(s[i + |Strip(s)|..]))
    ensures Strip(s) == [] || (!IsSpace(Strip(s)[0]) && !IsSpace(Strip(s)[|Strip(s)| - 1]))
  {
    var i := LeadingSpaces(s);
    var t := s[i..];
    var n := TrailingSpaces(t);
    var r := t[..|t| - n];
    assert Strip(s) == r;
    assert r == s[i..i + |r|];
    assert s[i + |r|..] == t[|t| - n..];
    if r != [] {
      assert r[0] == t[0] && r[|r| - 1] == t[|t| - n - 1];
    }
  }

  function LowerChar(c: char): char {
    if 'A' <= c <= 'Z' then (c as int + 32) as char else c
  }

  /** `s.lower()` on ASCII letters; every other character is kept. */
  function Lower(s: string): (r: string)
    ensures |r| == |s|
    ensures forall k :: 0 <= k < |r| ==> !('A' <= r[k] <= 'Z')
    ensures forall k :: 0 <= k < |s| ==> r[k] == s[k] || ('A' <= s[k] <= 'Z' && r[k] as int == s[k] as int + 32)
  {
    seq(|s|, k requires 0 <= k < |s| => LowerChar(s[k]))
  }

  /** `g.strip().lower()`: lower-casing keeps the stripped ends free of whitespace. */
  function Normalize(g: string): (r: string)
    ensures |r| <= |g|
    ensures r == [] || (!IsSpace(r[0]) && !IsSpace(r[|r| - 1]))
  {
    Lower(Strip(g))
  }

  const GroupMap: map<string, set<int>> := map["clothing" := ClothingLabels, "body" := BodyLabels, "head" := HeadLabels]

  /** The message of the ValueError raised for a group name that is not recognised. */
  function UnknownGroup(g: string): (r: string)
    ensures |r| == 15 + |g| && r[15..] == g
  {
    "unknown group: " + g
  }

  /** The group a name selects, looked up under its normalised key. */
  function Lookup(g: string): (r: Option<set<int>>)
    ensures r.Some? <==> Normalize(g) == "clothing" || Normalize(g) == "body" || Normalize(g) == "head"
    ensures r.Some? ==> r.value == ClothingLabels || r.value == BodyLabels || r.value == HeadLabels
    ensures Normalize(g) == "clothing" ==> r == Some(ClothingLabels)
    ensures Normalize(g) == "body" ==> r == Some(BodyLabels)
    ensures Normalize(g) == "head" ==> r == Some(HeadLabels)
  {
    var key := Normalize(g);
    if key in GroupMap then Some(GroupMap[key]) else None
  }

  /** The label ids named by one group name; none for an unknown name. */
  function Members(g: string): set<int> {
    Lookup(g).GetOr({})
  }

  /**
   * The loop of `_resolve_groups` over `gs` for a given name lookup: the
   * union of the named groups, or the error for the first name the lookup
   * does not recognise.
   */
  function ResolveWith(lookup: string -> Option<set<int>>, gs: seq<string>): (r: Result<set<int>, string>)
    ensures r.Success? ==> forall k :: 0 <= k < |gs| ==> lookup(gs[k]).Some?
    ensures r.Failure? ==> exists g :: g in gs && lookup(g).None? && r.error == UnknownGroup(g)
  {
    if gs == [] then Success({})
    else match lookup(gs[0])
      case None => Failure(UnknownGroup(gs[0]))
      case Some(group) => Joined(group, ResolveWith(lookup, gs[1..]))
  }

  /** The loop of `_resolve_groups` over `gs` with `_GROUP_MAP`. */
  function ResolveAll(gs: seq<string>): Result<set<int>, string> {
    ResolveWith(Lookup, gs)
  }

  /**
   * `_resolve_groups(groups)`: None and [] give the empty set; whatever it
   * returns is made of clothing, body and head labels only.
   */
  function Resolve(groups: Option<seq<string>>): (r: Result<set<int>, string>)
    ensures r.Success? ==> r.value <= ClothingLabels + BodyLabels + HeadLabels
  {
    if groups.None? || groups.value == [] then Success({})
    else
      ResolveAllWithinGroups(groups.value);
      ResolveAll(groups.value)
  }

  /** Every group `_GROUP_MAP` can contribute is one of the three label sets. */
  lemma {:induction false} ResolveAllWithinGroups(gs: seq<string>)
    ensures ResolveAll(gs).Success? ==> ResolveAll(gs).value <= ClothingLabels + BodyLabels + HeadLabels
  {
    if gs != [] {
      ResolveAllWithinGroups(gs[1..]);
    }
  }

  /** `acc` joined to a result still to come. */
  function Joined(acc: set<int>, r: Result<set<int>, string>): Result<set<int>, string> {
    match r
    case Success(s) => Success(acc + s)
    case Failure(e) => Failure(e)
  }

  lemma JoinedEmpty(r: Result<set<int>, string>)
    ensures Joined({}, r) == r
  {
    if r.Success? {
      assert {} + r.value == r.value;
    }
  }

  lemma JoinedJoined(a: set<int>, b: set<int>, r: Result<set<int>, string>)
    ensures Joined(a, Joined(b, r)) == Joined(a + b, r)
  {
    if r.Success? {
      assert a + (b + r.value) == (a + b) + r.value;
    }
  }

  /** `_resolve_groups`, accumulating `out |= ...` name by name. */
  method ResolveGroups(groups: Option<seq<string>>) returns (r: Result<set<int>, string>)
    ensures r == Resolve(groups)
  {
    if groups.None? || groups.value == [] {
      return Success({});
    }
    var gs := groups.value;
    var out: set<int> := {};
    var k := 0;
    assert gs[k..] == gs;
    JoinedEmpty(ResolveAll(gs));
    while k < |gs|
      invariant 0 <= k <= |gs|
      invariant ResolveAll(gs) == Joined(out, ResolveAll(gs[k..]))
    {
      assert gs[k..][0] == gs[k] && gs[k..][1..] == gs[k + 1..];
      var key := Normalize(gs[k]);
      if key !in GroupMap {
        assert Lookup(gs[k]) == None;
        return Failure(UnknownGroup(gs[k]));
      }
      assert Lookup(gs[k]) == Some(GroupMap[key]);
      assert ResolveAll(gs[k..]) == Joined(GroupMap[key], ResolveAll(gs[k + 1..]));
      JoinedJoined(out, GroupMap[key], ResolveAll(gs[k + 1..]));
      out := out + GroupMap[key];
      k := k + 1;
    }
    assert gs[k..] == [];
    return Success(out);
  }

  // ------------------------------------------------------------------
  // What resolution guarantees.
  // ------------------------------------------------------------------

  /**
   * Resolution succeeds exactly when the lookup recognises every name; it
   * then yields exactly the labels of the named groups, and otherwise fails
   * with the message for the first unrecognised name, quoting it as given.
   */
  lemma {:induction false} ResolveWithMeaning(lookup: string -> Option<set<int>>, gs: seq<string>)
    ensures ResolveWith(lookup, gs).Success? <==> forall k :: 0 <= k < |gs| ==> lookup(gs[k]).Some?
    ensures ResolveWith(lookup, gs).Success? ==>
      forall l :: l in ResolveWith(lookup, gs).value <==> exists k :: 0 <= k < |gs| && l in lookup(gs[k]).GetOr({})
    ensures ResolveWith(lookup, gs).Failure? ==>
      exists k :: 0 <= k < |gs| && lookup(gs[k]).None? && ResolveWith(lookup, gs).error == UnknownGroup(gs[k]) &&
        forall k' :: 0 <= k' < k ==> lookup(gs[k']).Some?
  {
    if gs != [] {
      var rest := gs[1..];
      ResolveWithMeaning(lookup, rest);
      assert forall k :: 1 <= k < |gs| ==> gs[k] == rest[k - 1];
      if lookup(gs[0]).Some? && ResolveWith(lookup, rest).Failure? {
        var k :| 0 <= k < |rest| && lookup(rest[k]).None? && ResolveWith(lookup, rest).error == UnknownGroup(rest[k]) &&
          forall k' :: 0 <= k' < k ==> lookup(rest[k']).Some?;
        assert lookup(gs[k + 1]).None? && ResolveWith(lookup, gs).error == UnknownGroup(gs[k + 1]);
      }
      if ResolveWith(lookup, gs).Success? {
        forall l | l in ResolveWith(lookup, gs).value ensures exists k :: 0 <= k < |gs| && l in lookup(gs[k]).GetOr({}) {
          if l !in lookup(gs[0]).GetOr({}) {
            var k :| 0 <= k < |rest| && l in lookup(rest[k]).GetOr({});
            assert l in lookup(gs[k + 1]).GetOr({});
          }
        }
      }
    }
  }

  /**
   * With any lookup, the result depends only on which names are given: not
   * on their order, nor on repetitions (only the error message may quote a
   * different unknown name).
   */
  lemma ResolveWithIgnoresOrderAndRepeats(lookup: string -> Option<set<int>>, gs1: seq<string>, gs2: seq<string>)
    requires forall g :: g in gs1 <==> g in gs2
    ensures ResolveWith(lookup, gs1).Success? <==> ResolveWith(lookup, gs2).Success?
    ensures ResolveWith(lookup, gs1).Success? ==> ResolveWith(lookup, gs1).value == ResolveWith(lookup, gs2).value
  {
    var r1, r2 := ResolveWith(lookup, gs1), ResolveWith(lookup, gs2);
    ResolveWithMeaning(lookup, gs1);
    ResolveWithMeaning(lookup, gs2);
    if r1.Success? {
      forall k | 0 <= k < |gs2| ensures lookup(gs2[k]).Some? {
        assert gs2[k] in gs1;
      }
    }
    if r2.Success? {
      forall k | 0 <= k < |gs1| ensures lookup(gs1[k]).Some? {
        assert gs1[k] in gs2;
      }
    }
    if r1.Success? {
      forall l ensures l in r1.value <==> l in r2.value {
        if l in r1.value {
          var k :| 0 <= k < |gs1| && l in lookup(gs1[k]).GetOr({});
          assert gs1[k] in gs2;
        }
        if l in r2.value {
          var k :| 0 <= k < |gs2| && l in lookup(gs2[k]).GetOr({});
          assert gs2[k] in gs1;
        }
      }
    }
  }

  /**
   * `_resolve_groups` yields exactly the labels of the named groups when
   * every name is recognised, and otherwise fails naming the first
   * unrecognised name; no partial set is returned.
   */
  lemma ResolveMeaning(groups: Option<seq<string>>)
    ensures groups.Some? ==> (Resolve(groups).Success? <==> forall k :: 0 <= k < |groups.value| ==> Lookup(groups.value[k]).Some?)
    ensures Resolve(groups).Success? && groups.Some? ==>
      forall l :: l in Resolve(groups).value <==> exists k :: 0 <= k < |groups.value| && l in Members(groups.value[k])
    ensures Resolve(groups).Failure? ==>
      groups.Some? &&
      exists k :: 0 <= k < |groups.value| && Lookup(groups.value[k]).None? && Resolve(groups).error == UnknownGroup(groups.value[k]) &&
        forall k' :: 0 <= k' < k ==> Lookup(groups.value[k']).Some?
  {
    if groups.Some? && groups.value != [] {
      var gs := groups.value;
      assert Resolve(groups) == ResolveWith(Lookup, gs);
      ResolveWithMeaning(Lookup, gs);
    }
  }

  /** `_resolve_groups` depends only on the set of names given. */
  lemma ResolveIgnoresOrderAndRepeats(gs1: seq<string>, gs2: seq<string>)
    requires forall g :: g in gs1 <==> g in gs2
    ensures Resolve(Some(gs1)).Success? <==> Resolve(Some(gs2)).Success?
    ensures Resolve(Some(gs1)).Success? ==> Resolve(Some(gs1)).value == Resolve(Some(gs2)).value
  {
    ResolveWithIgnoresOrderAndRepeats(Lookup, gs1, gs2);
  }

  /** Whitespace-only prefixes and suffixes are what LeadingSpaces and TrailingSpaces count. */
  lemma {:induction false} LeadingSpacesExact(s: string, n: nat)
    requires n <= |s| && AllSpace(s[..n]) && (n == |s| || !IsSpace(s[n]))
    ensures LeadingSpaces(s) == n
  {
    if n > 0 {
      assert IsSpace(s[0]) && s[1..][..n - 1] == s[1..n];
      LeadingSpacesExact(s[1..], n - 1);
    }
  }

  lemma {:induction false} TrailingSpacesExact(s: string, n: nat)
    requires n <= |s| && AllSpace(s[|s| - n..]) && (n == |s| || !IsSpace(s[|s| - n - 1]))
    ensures TrailingSpaces(s) == n
  {
    if n > 0 {
      var t := s[..|s| - 1];
      assert IsSpace(s[|s| - 1]) && t[|t| - (n - 1)..] == s[|s| - n..|s| - 1];
      TrailingSpacesExact(t, n - 1);
    }
  }

  /** The normalised name is the lower-cased middle of g, between whitespace-only ends. */
  lemma NormalizeIsLoweredMiddle(g: string)
    ensures exists i, j :: 0 <= i <= j <= |g| && AllSpace(g[..i]) && AllSpace(g[j..]) && Normalize(g) == Lower(g[i..j])
  {
    var r := Strip(g);
    StripMeaning(g);
    var i :| 0 <= i <= |g| - |r| && r == g[i..i + |r|] && AllSpace(g[..i]) && AllSpace(g[i + |r|..]);
    assert Normalize(g) == Lower(g[i..i + |r|]);
  }

  /**
   * Conversely, whitespace around a name whose first and last characters
   * are not whitespace is dropped, and the name is lower-cased.
   */
  lemma NormalizeOfPadded(g: string, i: nat, j: nat, key: string)
    requires i <= j <= |g| && AllSpace(g[..i]) && AllSpace(g[j..])
    requires key != [] && !IsSpace(key[0]) && !IsSpace(key[|key| - 1])
    requires Lower(g[i..j]) == key
    ensures Normalize(g) == key
  {
    var m := g[i..j];
    assert LowerChar(m[0]) == key[0] && LowerChar(m[|m| - 1]) == key[|key| - 1];
    StripOfPadded(g, i, j);
  }

  /** Strip gives back a middle part that neither starts nor ends with whitespace. */
  lemma StripOfPadded(g: string, i: nat, j: nat)
    requires i < j <= |g| && AllSpace(g[..i]) && AllSpace(g[j..])
    requires !IsSpace(g[i]) && !IsSpace(g[j - 1])
    ensures Strip(g) == g[i..j]
  {
    LeadingSpacesExact(g, i);
    var t := g[i..];
    assert t[|t| - (|g| - j)..] == g[j..];
    TrailingSpacesExact(t, |g| - j);
    assert Strip(g) == t[..j - i];
  }

  /**
   * Group names are case-insensitive and whitespace-tolerant and nothing
   * else: a name normalises to a key (such as "clothing", "body" or
   * "head") exactly when it is that key in any ASCII case, with whitespace
   * around it.
   */
  lemma NameMatchesKey(g: string, key: string)
    requires key != [] && !IsSpace(key[0]) && !IsSpace(key[|key| - 1])
    ensures Normalize(g) == key <==>
      exists i, j :: 0 <= i <= j <= |g| && AllSpace(g[..i]) && AllSpace(g[j..]) && Lower(g[i..j]) == key
  {
    NormalizeIsLoweredMiddle(g);
    if exists i, j :: 0 <= i <= j <= |g| && AllSpace(g[..i]) && AllSpace(g[j..]) && Lower(g[i..j]) == key {
      var i, j :| 0 <= i <= j <= |g| && AllSpace(g[..i]) && AllSpace(g[j..]) && Lower(g[i..j]) == key;
      NormalizeOfPadded(g, i, j, key);
    }
  }

  /** The keys of the group table are names with no whitespace at either end. */
  lemma GroupKeysAreTrimmed()
    ensures forall key :: key in GroupMap ==> key != [] && !IsSpace(key[0]) && !IsSpace(key[|key| - 1])
  {
  }

  /** A name given exactly as a key selects that key's group. */
  lemma ResolveExampleExact()
    ensures Resolve(None) == Success({}) && Resolve(Some([])) == Success({})
    ensures Resolve(Some(["clothing"])) == Success({4, 5, 6, 7, 8, 16, 17})
  {
    NormalizeOfPadded("clothing", 0, 8, "clothing");
    assert Lookup("clothing") == Some(ClothingLabels);
    JoinedJoined(ClothingLabels, {}, Success({}));
  }

  lemma LookupUpperBody()
    ensures Lookup("BODY") == Some(BodyLabels)
  {
    NormalizeOfPadded("BODY", 0, 4, "body");
  }

  lemma LookupPaddedHead()
    ensures Lookup(" head ") == Some(HeadLabels)
  {
    NormalizeOfPadded(" head ", 1, 5, "head");
  }

  lemma LookupUnknown()
    ensures Lookup("unknown") == None
  {
    NormalizeOfPadded("unknown", 0, 7, "unknown");
    assert |"unknown"| == 7 && "unknown" != "clothing";
    assert "unknown" !in GroupMap;
  }

  /** Case and surrounding whitespace do not matter. */
  lemma ResolveExampleMixed()
    ensures Resolve(Some(["BODY", " head "])) == Success(BodyLabels + HeadLabels)
  {
    LookupUpperBody();
    LookupPaddedHead();
    ResolveAllTwo("BODY", " head ", BodyLabels, HeadLabels);
  }

  /** Two recognised names resolve to the union of their groups. */
  lemma ResolveAllTwo(a: string, b: string, ga: set<int>, gb: set<int>)
    requires Lookup(a) == Some(ga) && Lookup(b) == Some(gb)
    ensures ResolveAll([a, b]) == Success(ga + gb)
  {
    assert [a, b][1..] == [b] && [b][1..] == [];
    assert ResolveWith(Lookup, [b]) == Joined(gb, ResolveWith(Lookup, [])) == Success(gb + {});
    assert gb + {} == gb;
    assert ResolveWith(Lookup, [a, b]) == Joined(ga, ResolveWith(Lookup, [b]));
  }

  /** An unknown name is rejected, quoted as given. */
  lemma ResolveExampleUnknown()
    ensures Resolve(Some(["unknown"])) == Failure("unknown group: unknown")
  {
    LookupUnknown();
    assert UnknownGroup("unknown") == "unknown group: unknown";
  }
}
