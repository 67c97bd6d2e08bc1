/** Which running containers are monitored, and under which policy: isMonitored and the selection
    loops of getContainerPIDs. The LSM and the tracepoint program share this text; `P` is the part
    of the YAML policy that each keeps. */
module Containers {
  import opened Seqs

  datatype YamlContainer<P> = YamlContainer(name: string, policy: P)
  datatype DockerContainer = DockerContainer(id: string, names: seq<string>)
  datatype ContainerInfo<P> = ContainerInfo(id: string, name: string, pid: int, policy: P)

  /** std::regex_match of a name with a pattern; None when the pattern does not compile. */
  type Regex = (string, string) -> Option<bool>

  /** The pid in Docker's answer to the k-th inspection of a container; None when there is no answer
      or no pid in it. */
  type Inspect = (string, nat) -> Option<int>

  function Names<P>(yaml: seq<YamlContainer<P>>): seq<string> {
    if yaml == [] then [] else [yaml[0].name] + Names(yaml[1..])
  }

  lemma {:induction false} NamesAre<P>(yaml: seq<YamlContainer<P>>)
    ensures |Names(yaml)| == |yaml| && forall i :: 0 <= i < |yaml| ==> Names(yaml)[i] == yaml[i].name
  {
    if yaml != [] {
      NamesAre(yaml[1..]);
      forall i | 0 <= i < |yaml| ensures Names(yaml)[i] == yaml[i].name {
        assert i > 0 ==> Names(yaml)[i] == Names(yaml[1..])[i - 1] && yaml[i] == yaml[1..][i - 1];
      }
    }
  }

  predicate PatternMatches(regex: Regex, name: string, pattern: string) {
    name == pattern || regex(name, pattern) == Some(true)
  }

  function Matching(monitored: seq<string>, regex: Regex, name: string): seq<string> {
    if monitored == [] then []
    else
      var front, last := monitored[..|monitored| - 1], monitored[|monitored| - 1];
      Matching(front, regex, name) + if PatternMatches(regex, name, last) then [last] else []
  }

  lemma {:induction false} MatchingMembers(monitored: seq<string>, regex: Regex, name: string, pattern: string)
    ensures pattern in Matching(monitored, regex, name) <==>
            pattern in monitored && PatternMatches(regex, name, pattern)
  {
    if monitored != [] {
      var front, last := monitored[..|monitored| - 1], monitored[|monitored| - 1];
      assert monitored == front + [last];
      MatchingMembers(front, regex, name, pattern);
    }
  }

  method IsMonitored(monitored: seq<string>, regex: Regex, name: string) returns (matched: seq<string>)
    ensures matched == Matching(monitored, regex, name)
    ensures forall p :: p in matched <==> p in monitored && (name == p || regex(name, p) == Some(true))
  {
    matched := [];
    for i := 0 to |monitored|
      invariant matched == Matching(monitored[..i], regex, name)
    {
      assert monitored[..i + 1][..i] == monitored[..i];
      var pattern := monitored[i];
      if name == pattern {
        matched := matched + [pattern];
        continue;
      }
      if regex(name, pattern) == Some(true) {
        matched := matched + [pattern];
      }
    }
    assert monitored[..|monitored|] == monitored;
    forall p ensures p in matched <==> p in monitored && PatternMatches(regex, name, p) {
      MatchingMembers(monitored, regex, name, p);
    }
  }

  /** The policy of the first YAML entry with that name. */
  function PolicyFor<P>(yaml: seq<YamlContainer<P>>, name: string): Option<P> {
    if yaml == [] then None
    else if yaml[0].name == name then Some(yaml[0].policy)
    else PolicyFor(yaml[1..], name)
  }

  /** Entry `e` is the first one of that name. */
  predicate IsFirstNamed<P>(yaml: seq<YamlContainer<P>>, name: string, e: int) {
    0 <= e < |yaml| && yaml[e].name == name && forall i :: 0 <= i < e ==> yaml[i].name != name
  }

  lemma {:induction false} PolicyForIs<P>(yaml: seq<YamlContainer<P>>, name: string, e: nat)
    requires IsFirstNamed(yaml, name, e)
    ensures PolicyFor(yaml, name) == Some(yaml[e].policy)
  {
    if e > 0 {
      assert yaml[0].name != name;
      forall i | 0 <= i < e - 1 ensures yaml[1..][i].name != name {
        assert yaml[1..][i] == yaml[i + 1];
      }
      PolicyForIs(yaml[1..], name, e - 1);
    }
  }

  lemma PolicyIsFirstNamed<P>(yaml: seq<YamlContainer<P>>, name: string)
    ensures forall e :: IsFirstNamed(yaml, name, e) ==> PolicyFor(yaml, name) == Some(yaml[e].policy)
    ensures PolicyFor(yaml, name).None? <==> forall i :: 0 <= i < |yaml| ==> yaml[i].name != name
  {
    forall e | IsFirstNamed(yaml, name, e) ensures PolicyFor(yaml, name) == Some(yaml[e].policy) {
      PolicyForIs(yaml, name, e);
    }
    PolicyForNames(yaml, name);
    NamesAre(yaml);
    if name in Names(yaml) {
      var e := FirstNamed(yaml, name);
    }
  }

  lemma {:induction false} FirstNamed<P>(yaml: seq<YamlContainer<P>>, name: string) returns (e: nat)
    requires name in Names(yaml)
    ensures IsFirstNamed(yaml, name, e)
  {
    if yaml[0].name == name {
      e := 0;
    } else {
      assert Names(yaml) == [yaml[0].name] + Names(yaml[1..]);
      e := FirstNamed(yaml[1..], name);
      e := e + 1;
      forall i | 0 <= i < e ensures yaml[i].name != name {
        assert i > 0 ==> yaml[i] == yaml[1..][i - 1];
      }
    }
  }

  lemma {:induction false} PolicyForNames<P>(yaml: seq<YamlContainer<P>>, name: string)
    ensures PolicyFor(yaml, name).Some? <==> name in Names(yaml)
  {
    if yaml != [] {
      PolicyForNames(yaml[1..], name);
    }
  }

  /** The first name without its leading slash. */
  function DisplayName(d: DockerContainer): (r: string)
    ensures d.names == [] ==> r == "unknown"
    ensures d.names != [] ==> r == d.names[0] || ['/'] + r == d.names[0]
    ensures d.names != [] && d.names[0] != "" && d.names[0][0] == '/' ==> |r| == |d.names[0]| - 1
    ensures d.names != [] && d.names[0] != "" && d.names[0][0] != '/' ==> r == d.names[0]
  {
    if d.names == [] then "unknown"
    else if d.names[0] != "" && d.names[0][0] == '/' then d.names[0][1..]
    else d.names[0]
  }

  /** The entries pushed for one container under its first `k` matching patterns. */
  function DetectedUnder<P>(yaml: seq<YamlContainer<P>>, d: DockerContainer, patterns: seq<string>, inspect: Inspect,
          k: nat)
    : seq<ContainerInfo<P>>
    requires k <= |patterns| && forall i :: 0 <= i < |patterns| ==> PolicyFor(yaml, patterns[i]).Some?
  {
    if k == 0 then []
    else DetectedUnder(yaml, d, patterns, inspect, k - 1)
         + match inspect(d.id, k - 1)
           case None => []
           case Some(pid) => [ContainerInfo(d.id, DisplayName(d), pid, PolicyFor(yaml, patterns[k - 1]).value)]
  }

  ghost predicate AllNamed<P>(yaml: seq<YamlContainer<P>>, patterns: seq<string>) {
    forall i :: 0 <= i < |patterns| ==> PolicyFor(yaml, patterns[i]).Some?
  }

  lemma MatchingAreNamed<P>(yaml: seq<YamlContainer<P>>, regex: Regex, name: string)
    ensures AllNamed(yaml, Matching(Names(yaml), regex, name))
  {
    var patterns := Matching(Names(yaml), regex, name);
    forall i | 0 <= i < |patterns| ensures PolicyFor(yaml, patterns[i]).Some? {
      MatchingMembers(Names(yaml), regex, name, patterns[i]);
      PolicyForNames(yaml, patterns[i]);
    }
  }

  function DetectedOf<P>(yaml: seq<YamlContainer<P>>, d: DockerContainer, regex: Regex,
          inspect: Inspect): seq<ContainerInfo<P>> {
    MatchingAreNamed(yaml, regex, DisplayName(d));
    var patterns := Matching(Names(yaml), regex, DisplayName(d));
    DetectedUnder(yaml, d, patterns, inspect, |patterns|)
  }

  function Detected<P>(yaml: seq<YamlContainer<P>>, docker: seq<DockerContainer>, regex: Regex, inspect: Inspect)
    : seq<ContainerInfo<P>>
  {
    if docker == [] then []
    else Detected(yaml, docker[..|docker| - 1], regex, inspect)
         + DetectedOf(yaml, docker[|docker| - 1], regex, inspect)
  }

  /** Docker's list is None when the request fails. */
  method GetContainerPIDs<P>(yaml: seq<YamlContainer<P>>, docker: Option<seq<DockerContainer>>, regex: Regex,
          inspect: Inspect)
    returns (containers: seq<ContainerInfo<P>>)
    ensures containers == if docker.Some? then Detected(yaml, docker.value, regex, inspect) else []
  {
    containers := [];
    if docker.None? {
      return;
    }
    var list := docker.value;
    for i := 0 to |list|
      invariant containers == Detected(yaml, list[..i], regex, inspect)
    {
      assert list[..i + 1][..i] == list[..i];
      var matched := IsMonitored(Names(yaml), regex, DisplayName(list[i]));
      MatchingAreNamed(yaml, regex, DisplayName(list[i]));
      var found := InspectMatches(yaml, list[i], matched, inspect);
      containers := containers + found;
    }
    assert list[..|list|] == list;
  }

  /** The inner loop: one inspection for every pattern the container matches. */
  method InspectMatches<P>(yaml: seq<YamlContainer<P>>, d: DockerContainer, matched: seq<string>, inspect: Inspect)
    returns (found: seq<ContainerInfo<P>>)
    requires AllNamed(yaml, matched)
    ensures found == DetectedUnder(yaml, d, matched, inspect, |matched|)
  {
    found := [];
    for k := 0 to |matched|
      invariant found == DetectedUnder(yaml, d, matched, inspect, k)
    {
      var pid := inspect(d.id, k);
      if pid.Some? {
        var policy := FindPolicy(yaml, matched[k]);
        found := found + [ContainerInfo(d.id, DisplayName(d), pid.value, policy.value)];
      }
    }
  }

  method FindPolicy<P>(yaml: seq<YamlContainer<P>>, name: string) returns (policy: Option<P>)
    ensures policy == PolicyFor(yaml, name)
    ensures forall e :: IsFirstNamed(yaml, name, e) ==> policy == Some(yaml[e].policy)
    ensures policy.None? <==> forall i :: 0 <= i < |yaml| ==> yaml[i].name != name
  {
    PolicyIsFirstNamed(yaml, name);
    policy := None;
    for i := 0 to |yaml|
      invariant PolicyFor(yaml, name) == PolicyFor(yaml[i..], name)
    {
      if yaml[i].name == name {
        return Some(yaml[i].policy);
      }
    }
  }

  // ----- what is detected, and in which order --------------------------------------------------------

  predicate MatchesAt(monitored: seq<string>, regex: Regex, name: string, q: int) {
    0 <= q < |monitored| && (name == monitored[q] || regex(name, monitored[q]) == Some(true))
  }

  /** How many patterns before `q` the name matches. */
  function Rank(monitored: seq<string>, regex: Regex, name: string, q: nat): nat {
    |set r: nat | r < q && MatchesAt(monitored, regex, name, r)|
  }

  lemma RankOfFront(monitored: seq<string>, regex: Regex, name: string, n: nat, q: nat)
    requires q <= n <= |monitored|
    ensures Rank(monitored[..n], regex, name, q) == Rank(monitored, regex, name, q)
  {
    assert (set r: nat | r < q && MatchesAt(monitored[..n], regex, name, r))
        == (set r: nat | r < q && MatchesAt(monitored, regex, name, r));
  }

  lemma RankNext(monitored: seq<string>, regex: Regex, name: string, q: nat)
    ensures Rank(monitored, regex, name, q + 1) ==
            Rank(monitored, regex, name, q) + if MatchesAt(monitored, regex, name, q) then 1 else 0
  {
    var before := set r: nat | r < q && MatchesAt(monitored, regex, name, r);
    var after := set r: nat | r < q + 1 && MatchesAt(monitored, regex, name, r);
    assert after == if MatchesAt(monitored, regex, name, q) then before + {q} else before;
  }

  ghost predicate Increasing(places: seq<nat>) {
    forall j, k :: 0 <= j < k < |places| ==> places[j] < places[k]
  }

  /** The k-th matching pattern is at this place. */
  ghost predicate Place(monitored: seq<string>, regex: Regex, name: string, q: nat, k: nat) {
    && MatchesAt(monitored, regex, name, q) && Rank(monitored, regex, name, q) == k
    && k < |Matching(monitored, regex, name)| && monitored[q] == Matching(monitored, regex, name)[k]
  }

  lemma PlaceOfFront(monitored: seq<string>, regex: Regex, name: string, q: nat, k: nat)
    requires monitored != [] && Place(monitored[..|monitored| - 1], regex, name, q, k)
    ensures Place(monitored, regex, name, q, k)
  {
    RankOfFront(monitored, regex, name, |monitored| - 1, q);
  }

  /** Where the matching patterns are, in order. */
  ghost predicate Places(monitored: seq<string>, regex: Regex, name: string, places: seq<nat>) {
    && |places| == |Matching(monitored, regex, name)| == Rank(monitored, regex, name, |monitored|)
    && forall k :: 0 <= k < |places| ==> Place(monitored, regex, name, places[k], k)
  }

  lemma {:induction false} MatchingPlaces(monitored: seq<string>, regex: Regex, name: string) returns (places: seq<nat>)
    ensures Places(monitored, regex, name, places)
  {
    places := [];
    if monitored == [] {
      assert Rank(monitored, regex, name, 0) == 0;
    } else {
      var n := |monitored| - 1;
      places := MatchingPlaces(monitored[..n], regex, name);
      RankOfFront(monitored, regex, name, n, n);
      RankNext(monitored, regex, name, n);
      forall k | 0 <= k < |places| ensures Place(monitored, regex, name, places[k], k) {
        PlaceOfFront(monitored, regex, name, places[k], k);
      }
      if MatchesAt(monitored, regex, name, n) {
        assert Place(monitored, regex, name, n, |places|);
        places := places + [n];
      }
    }
  }

  lemma RankGrows(monitored: seq<string>, regex: Regex, name: string, q: nat, r: nat)
    requires q < r && MatchesAt(monitored, regex, name, q)
    ensures Rank(monitored, regex, name, q) < Rank(monitored, regex, name, r)
    decreases r - q
  {
    RankNext(monitored, regex, name, r - 1);
    if q < r - 1 {
      RankGrows(monitored, regex, name, q, r - 1);
    }
  }

  /** The places are in ascending order, and each match is at its rank. */
  lemma PlacesAreAll(monitored: seq<string>, regex: Regex, name: string, places: seq<nat>)
    requires Places(monitored, regex, name, places)
    ensures Increasing(places)
    ensures forall q :: MatchesAt(monitored, regex, name, q) ==>
              Rank(monitored, regex, name, q) < |places| && places[Rank(monitored, regex, name, q)] == q
  {
    forall j, k | 0 <= j < k < |places| ensures places[j] < places[k] {
      assert Place(monitored, regex, name, places[j], j) && Place(monitored, regex, name, places[k], k);
      if places[k] < places[j] {
        RankGrows(monitored, regex, name, places[k], places[j]);
      }
    }
    forall q | MatchesAt(monitored, regex, name, q)
      ensures Rank(monitored, regex, name, q) < |places| && places[Rank(monitored, regex, name, q)] == q
    {
      RankGrows(monitored, regex, name, q, |monitored|);
      var k := Rank(monitored, regex, name, q);
      assert Place(monitored, regex, name, places[k], k);
      if places[k] < q {
        RankGrows(monitored, regex, name, places[k], q);
      } else if q < places[k] {
        RankGrows(monitored, regex, name, q, places[k]);
      }
    }
  }

  /** The container matches entry `q`, and the inspection that belongs to this match gives a pid. */
  predicate Inspected<P>(yaml: seq<YamlContainer<P>>, d: DockerContainer, regex: Regex, inspect: Inspect, q: int) {
    && MatchesAt(Names(yaml), regex, DisplayName(d), q)
    && inspect(d.id, Rank(Names(yaml), regex, DisplayName(d), q)).Some?
  }

  /** What is pushed for that match: the policy is that of the first entry with the name of entry `q`. */
  ghost predicate Yields<P>(c: ContainerInfo<P>, yaml: seq<YamlContainer<P>>, d: DockerContainer, regex: Regex,
          inspect: Inspect, q: nat)
  {
    && q < |yaml| && (DisplayName(d) == yaml[q].name || regex(DisplayName(d), yaml[q].name) == Some(true))
    && inspect(d.id, Rank(Names(yaml), regex, DisplayName(d), q)) == Some(c.pid)
    && c.id == d.id && c.name == DisplayName(d)
    && exists e :: IsFirstNamed(yaml, yaml[q].name, e) && c.policy == yaml[e].policy
  }

  lemma YieldsAt<P>(yaml: seq<YamlContainer<P>>, d: DockerContainer, regex: Regex, inspect: Inspect, q: nat, k: nat)
    requires Place(Names(yaml), regex, DisplayName(d), q, k) && inspect(d.id, k).Some?
    requires PolicyFor(yaml, Matching(Names(yaml), regex, DisplayName(d))[k]).Some?
    ensures var policy := PolicyFor(yaml, Matching(Names(yaml), regex, DisplayName(d))[k]).value;
            Yields(ContainerInfo(d.id, DisplayName(d), inspect(d.id, k).value, policy), yaml, d, regex, inspect, q)
  {
    NamesAre(yaml);
    assert Names(yaml)[q] in Names(yaml);
    var e := FirstNamed(yaml, yaml[q].name);
    PolicyForIs(yaml, yaml[q].name, e);
  }

  /** The entries pushed for the first `k` matches, and the YAML entries they come from. */
  ghost predicate ComeFrom<P>(found: seq<ContainerInfo<P>>, origins: seq<nat>, yaml: seq<YamlContainer<P>>,
          d: DockerContainer, regex: Regex, inspect: Inspect)
  {
    && |origins| == |found| && Increasing(origins)
    && forall n :: 0 <= n < |found| ==> Yields(found[n], yaml, d, regex, inspect, origins[n])
  }

  lemma OneMore<P>(found: seq<ContainerInfo<P>>, origins: seq<nat>, c: ContainerInfo<P>, q: nat,
          yaml: seq<YamlContainer<P>>, d: DockerContainer, regex: Regex, inspect: Inspect)
    requires ComeFrom(found, origins, yaml, d, regex, inspect) && Yields(c, yaml, d, regex, inspect, q)
    requires forall n :: 0 <= n < |origins| ==> origins[n] < q
    ensures ComeFrom(found + [c], origins + [q], yaml, d, regex, inspect)
  {
  }

  lemma {:induction false} DetectedUnderFrom<P>(yaml: seq<YamlContainer<P>>, d: DockerContainer, regex: Regex,
          inspect: Inspect, places: seq<nat>, k: nat)
    returns (origins: seq<nat>)
    requires AllNamed(yaml, Matching(Names(yaml), regex, DisplayName(d)))
    requires k <= |places| == |Matching(Names(yaml), regex, DisplayName(d))| && Increasing(places)
    requires forall j :: 0 <= j < |places| ==> Place(Names(yaml), regex, DisplayName(d), places[j], j)
    ensures ComeFrom(DetectedUnder(yaml, d, Matching(Names(yaml), regex, DisplayName(d)), inspect, k), origins,
                     yaml, d, regex, inspect)
    ensures forall n :: 0 <= n < |origins| && k < |places| ==> origins[n] < places[k]
    ensures forall j :: 0 <= j < k && inspect(d.id, j).Some? ==> places[j] in origins
  {
    origins := [];
    if k > 0 {
      origins := DetectedUnderFrom(yaml, d, regex, inspect, places, k - 1);
      if inspect(d.id, k - 1).Some? {
        var patterns := Matching(Names(yaml), regex, DisplayName(d));
        var c := ContainerInfo(d.id, DisplayName(d), inspect(d.id, k - 1).value, PolicyFor(yaml,
          patterns[k - 1]).value);
        YieldsAt(yaml, d, regex, inspect, places[k - 1], k - 1);
        OneMore(DetectedUnder(yaml, d, patterns, inspect, k - 1), origins, c, places[k - 1], yaml, d, regex, inspect);
        origins := origins + [places[k - 1]];
      }
    }
  }

  /** For one container: the entries pushed are those of its successful matches, in the order of the YAML
      entries. */
  lemma DetectedOfFrom<P>(yaml: seq<YamlContainer<P>>, d: DockerContainer, regex: Regex, inspect: Inspect)
    returns (origins: seq<nat>)
    ensures ComeFrom(DetectedOf(yaml, d, regex, inspect), origins, yaml, d, regex, inspect)
    ensures forall q :: Inspected(yaml, d, regex, inspect, q) ==> q in origins
  {
    MatchingAreNamed(yaml, regex, DisplayName(d));
    var places := MatchingPlaces(Names(yaml), regex, DisplayName(d));
    PlacesAreAll(Names(yaml), regex, DisplayName(d), places);
    origins := DetectedUnderFrom(yaml, d, regex, inspect, places, |places|);
    forall q | Inspected(yaml, d, regex, inspect, q) ensures q in origins {
      assert places[Rank(Names(yaml), regex, DisplayName(d), q)] == q;
    }
  }

  /** Docker container and YAML entry. */
  datatype Origin = Origin(container: nat, entry: nat)

  predicate Before(a: Origin, b: Origin) {
    a.container < b.container || (a.container == b.container && a.entry < b.entry)
  }

  /** Ordered by container and then by entry. */
  ghost predicate Ordered(origins: seq<Origin>) {
    forall m, n :: 0 <= m < n < |origins| ==> Before(origins[m], origins[n])
  }

  ghost predicate YieldsFrom<P>(c: ContainerInfo<P>, yaml: seq<YamlContainer<P>>, docker: seq<DockerContainer>,
          regex: Regex, inspect: Inspect, o: Origin)
  {
    o.container < |docker| && Yields(c, yaml, docker[o.container], regex, inspect, o.entry)
  }

  /** The entries come from these successful matches, in this order. */
  ghost predicate FoundFrom<P>(found: seq<ContainerInfo<P>>, origins: seq<Origin>, yaml: seq<YamlContainer<P>>,
          docker: seq<DockerContainer>, regex: Regex, inspect: Inspect)
  {
    && |origins| == |found| && Ordered(origins)
    && forall n :: 0 <= n < |found| ==> YieldsFrom(found[n], yaml, docker, regex, inspect, origins[n])
  }

  /** Every successful match is among them. */
  ghost predicate Complete<P>(origins: seq<Origin>, yaml: seq<YamlContainer<P>>, docker: seq<DockerContainer>,
          regex: Regex, inspect: Inspect)
  {
    forall i: nat, q: nat :: i < |docker| && Inspected(yaml, docker[i], regex, inspect, q) ==> Origin(i, q) in origins
  }

  function Tagged(container: nat, entries: seq<nat>): (r: seq<Origin>)
    ensures |r| == |entries| && forall n :: 0 <= n < |r| ==> r[n] == Origin(container, entries[n])
  {
    seq(|entries|, n requires 0 <= n < |entries| => Origin(container, entries[n]))
  }

  lemma TaggedHas(container: nat, entries: seq<nat>, q: nat)
    requires q in entries
    ensures Origin(container, q) in Tagged(container, entries)
  {
    var n :| 0 <= n < |entries| && entries[n] == q;
    assert Tagged(container, entries)[n] == Origin(container, q);
  }

  lemma MoreFound<P>(found: seq<ContainerInfo<P>>, origins: seq<Origin>, more: seq<ContainerInfo<P>>, entries: seq<nat>,
          yaml: seq<YamlContainer<P>>, docker: seq<DockerContainer>, regex: Regex, inspect: Inspect)
    requires docker != [] && FoundFrom(found, origins, yaml, docker[..|docker| - 1], regex, inspect)
    requires ComeFrom(more, entries, yaml, docker[|docker| - 1], regex, inspect)
    ensures FoundFrom(found + more, origins + Tagged(|docker| - 1, entries), yaml, docker, regex, inspect)
  {
    var last := |docker| - 1;
    var all, places := found + more, origins + Tagged(last, entries);
    forall n | 0 <= n < |all| ensures YieldsFrom(all[n], yaml, docker, regex, inspect, places[n]) {
      if n < |found| {
        assert YieldsFrom(found[n], yaml, docker[..last], regex, inspect, origins[n]);
      } else {
        assert Yields(more[n - |found|], yaml, docker[last], regex, inspect, entries[n - |found|]);
      }
    }
    forall m, n | 0 <= m < n < |places| ensures Before(places[m], places[n]) {
      if m < |origins| <= n {
        assert YieldsFrom(found[m], yaml, docker[..last], regex, inspect, origins[m]);
      }
    }
  }

  /** The detected entries are exactly the successful matches of a container with a YAML entry, ordered by
      container and then by entry, each under the first policy of the entry's name. */
  lemma {:induction false} DetectedExactly<P>(yaml: seq<YamlContainer<P>>, docker: seq<DockerContainer>, regex: Regex,
          inspect: Inspect)
    returns (origins: seq<Origin>)
    ensures FoundFrom(Detected(yaml, docker, regex, inspect), origins, yaml, docker, regex, inspect)
    ensures Complete(origins, yaml, docker, regex, inspect)
  {
    origins := [];
    if docker != [] {
      var last := |docker| - 1;
      var front := DetectedExactly(yaml, docker[..last], regex, inspect);
      var entries := DetectedOfFrom(yaml, docker[last], regex, inspect);
      MoreFound(Detected(yaml, docker[..last], regex, inspect), front,
                DetectedOf(yaml, docker[last], regex, inspect), entries, yaml, docker, regex, inspect);
      origins := front + Tagged(last, entries);
      forall i: nat, q: nat | i < |docker| && Inspected(yaml, docker[i], regex, inspect, q)
        ensures Origin(i, q) in origins
      {
        if i < last {
          assert docker[..last][i] == docker[i];
        } else {
          TaggedHas(last, entries, q);
        }
      }
    }
  }
}
