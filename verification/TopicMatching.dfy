/** The two MQTT topic matchers: mqtt_match of the plain client and topic_matches of the secure client.
    They split topics differently and then compare them level by level. The secure client asks topic_matches last,
    after three tests of its own. */
module TopicMatching {
  import opened Sequences

  // ----- splitting into levels -----

  /** Position of the first slash at or after pos, or |s|. */
  function FindSlash(s: string, pos: nat): (end: nat)
    requires pos <= |s|
    ensures pos <= end <= |s|
    ensures (forall k :: pos <= k < end ==> s[k] != '/') && (end < |s| ==> s[end] == '/')
    decreases |s| - pos
  {
    if pos == |s| || s[pos] == '/' then pos else FindSlash(s, pos + 1)
  }

  /** The levels of a string from a position on: what stands before, between and after its slashes. */
  function LevelsFrom(s: string, pos: nat): (r: seq<string>)
    requires pos <= |s|
    ensures r != []
    decreases |s| - pos
  {
    var end := FindSlash(s, pos);
    if end == |s| then [s[pos..]] else [s[pos..end]] + LevelsFrom(s, end + 1)
  }

  function Levels(s: string): (r: seq<string>)
    ensures r != []
  {
    LevelsFrom(s, 0)
  }

  /** What reading up to each slash yields from a position on: nothing once the stream is exhausted. */
  function LinesFrom(s: string, pos: nat): seq<string>
    requires pos <= |s|
    decreases |s| - pos
  {
    if pos == |s| then []
    else
      var end := FindSlash(s, pos);
      if end == |s| then [s[pos..]] else [s[pos..end]] + LinesFrom(s, end + 1)
  }

  function Lines(s: string): seq<string> {
    LinesFrom(s, 0)
  }

  /** The split of secure_mqtt.cpp: search for each slash, then take what is left. */
  method SplitByFind(s: string) returns (parts: seq<string>)
    ensures parts == Levels(s)
  {
    parts := [];
    var pos := 0;
    var end := FindSlash(s, pos);
    ghost var all := LevelsFrom(s, 0);
    while end < |s|
      invariant 0 <= pos <= |s| && end == FindSlash(s, pos)
      invariant parts + LevelsFrom(s, pos) == all
      decreases |s| - pos
    {
      Associate(parts, [s[pos..end]], LevelsFrom(s, end + 1));
      parts := parts + [s[pos..end]];
      pos := end + 1;
      end := FindSlash(s, pos);
    }
    parts := parts + [s[pos..]];
  }

  /** The split of client.cpp: getline with '/' as delimiter until the stream has nothing left. */
  method SplitByGetline(s: string) returns (parts: seq<string>)
    ensures parts == Lines(s)
  {
    parts := [];
    var pos := 0;
    ghost var all := LinesFrom(s, 0);
    while pos < |s|
      invariant 0 <= pos <= |s|
      invariant parts + LinesFrom(s, pos) == all
    {
      var end := FindSlash(s, pos);
      if end < |s| {
        Associate(parts, [s[pos..end]], LinesFrom(s, end + 1));
      } else {
        assert s[pos..end] == s[pos..];
      }
      parts := parts + [s[pos..end]];
      pos := if end < |s| then end + 1 else end;
    }
  }

  // ----- splitting and joining undo each other -----

  function Join(parts: seq<string>): string {
    if parts == [] then ""
    else if |parts| == 1 then parts[0]
    else parts[0] + "/" + Join(parts[1..])
  }

  lemma FirstSlashAfter(s: string, pos: nat, part: string, rest: string)
    requires pos <= |s| && '/' !in part && s[pos..] == part + "/" + rest
    ensures FindSlash(s, pos) == pos + |part| < |s| && s[pos..pos + |part|] == part && s[pos + |part| + 1..] == rest
  {
    assert s[pos..][|part|] == '/' && s[pos..][..|part|] == part && s[pos..][|part| + 1..] == rest;
    assert forall k :: pos <= k < |s| ==> s[k] == s[pos..][k - pos];
    assert forall k :: 0 <= k < |part| ==> s[pos..][k] == part[k] && part[k] in part;
  }

  lemma NoSlashAfter(s: string, pos: nat)
    requires pos <= |s| && '/' !in s[pos..]
    ensures FindSlash(s, pos) == |s|
  {
    assert forall k :: pos <= k < |s| ==> s[k] == s[pos..][k - pos] && s[k] in s[pos..];
  }

  lemma {:induction false} JoinLevelsFrom(s: string, pos: nat)
    requires pos <= |s|
    ensures Join(LevelsFrom(s, pos)) == s[pos..]
    ensures forall part :: part in LevelsFrom(s, pos) ==> '/' !in part
    decreases |s| - pos
  {
    var end := FindSlash(s, pos);
    if end == |s| {
      assert s[pos..end] == s[pos..];
    } else {
      JoinLevelsFrom(s, end + 1);
      var r := LevelsFrom(s, pos);
      assert r[1..] == LevelsFrom(s, end + 1);
      assert s[pos..] == s[pos..end] + "/" + s[end + 1..];
    }
  }

  /** Joining the levels gives the string back. */
  lemma JoinLevels(s: string)
    ensures Join(Levels(s)) == s
    ensures forall part :: part in Levels(s) ==> '/' !in part
  {
    JoinLevelsFrom(s, 0);
  }

  lemma {:induction false} LevelsFromJoin(s: string, pos: nat, parts: seq<string>)
    requires parts != [] && forall part :: part in parts ==> '/' !in part
    requires pos <= |s| && s[pos..] == Join(parts)
    ensures LevelsFrom(s, pos) == parts
    decreases |parts|
  {
    if |parts| == 1 {
      NoSlashAfter(s, pos);
    } else {
      var first, rest := parts[0], parts[1..];
      assert parts == [first] + rest;
      FirstSlashAfter(s, pos, first, Join(rest));
      LevelsFromJoin(s, pos + |first| + 1, rest);
    }
  }

  /** Any list of slash-free levels is what its join splits into. */
  lemma LevelsJoin(parts: seq<string>)
    requires parts != [] && forall part :: part in parts ==> '/' !in part
    ensures Levels(Join(parts)) == parts
  {
    assert Join(parts)[0..] == Join(parts);
    LevelsFromJoin(Join(parts), 0, parts);
  }

  predicate EndsWithSlash(s: string) {
    s != "" && s[|s| - 1] == '/'
  }

  /** The string without one trailing slash. */
  function Chop(s: string): string {
    if EndsWithSlash(s) then s[..|s| - 1] else s
  }

  /** The two splits differ in one empty level at the end. */
  lemma {:induction false} LevelsAndLines(s: string, pos: nat)
    requires pos <= |s|
    ensures LevelsFrom(s, pos) == LinesFrom(s, pos) + if pos == |s| || EndsWithSlash(s) then [""] else []
    decreases |s| - pos
  {
    var end := FindSlash(s, pos);
    if pos == |s| {
      assert s[pos..] == "";
    } else if end < |s| {
      LevelsAndLines(s, end + 1);
      Associate([s[pos..end]], LinesFrom(s, end + 1), if EndsWithSlash(s) then [""] else []);
    } else {
      assert s[|s| - 1] != '/';
    }
  }

  lemma {:induction false} JoinSnocEmpty(parts: seq<string>)
    requires parts != []
    ensures Join(parts + [""]) == Join(parts) + "/"
  {
    if |parts| == 1 {
    } else {
      JoinSnocEmpty(parts[1..]);
      assert (parts + [""])[1..] == parts[1..] + [""];
    }
  }

  /** The getline split loses at most one trailing slash: joining its parts gives the string without it,
      and its parts are the levels of that shorter string. */
  lemma LinesAreLevelsOfChop(s: string)
    ensures Join(Lines(s)) == Chop(s)
    ensures s != "" ==> Lines(s) == Levels(Chop(s))
  {
    if s != "" {
      LevelsAndLines(s, 0);
      JoinLevels(s);
      assert forall part :: part in Lines(s) ==> part in Levels(s);
      if EndsWithSlash(s) {
        JoinSnocEmpty(Lines(s));
        assert s == Join(Lines(s)) + "/";
      } else {
        assert Levels(s) == Lines(s);
      }
      LevelsJoin(Lines(s));
    }
  }

  // ----- the comparison loop -----

  /** Level by level: '#' accepts whatever is left, even nothing; '+' accepts one level of any kind. */
  predicate Match(f: seq<string>, t: seq<string>) {
    if f == [] then t == []
    else if f[0] == "#" then true
    else t != [] && (f[0] == "+" || f[0] == t[0]) && Match(f[1..], t[1..])
  }

  /** The comparison of topic_matches, which it makes only for filters with a '+'. */
  predicate LevelsMatch(filter: string, topic: string) {
    Match(Levels(filter), Levels(topic))
  }

  /** What topic_matches answers: no to every filter without a '+'. */
  predicate SecureMatch(filter: string, topic: string) {
    '+' in filter && LevelsMatch(filter, topic)
  }

  method TopicMatches(filter: string, topic: string) returns (ok: bool)
    ensures ok == SecureMatch(filter, topic)
  {
    if '+' !in filter { return false; }
    var f := SplitByFind(filter);
    var t := SplitByFind(topic);
    var fi, ti := 0, 0;
    while fi < |f| && ti < |t|
      invariant 0 <= fi <= |f| && 0 <= ti <= |t|
      invariant Match(f[fi..], t[ti..]) == Match(f, t)
    {
      if f[fi] == "#" { return true; }
      if f[fi] == "+" {
        fi, ti := fi + 1, ti + 1;
        continue;
      }
      if f[fi] != t[ti] { return false; }
      fi, ti := fi + 1, ti + 1;
    }
    if fi == |f| && ti == |t| { return true; }
    if fi < |f| && f[fi] == "#" && ti == |t| { return true; }
    return false;
  }

  /** mqtt_match without its shortcut, which never changes the answer. */
  predicate SlowMqttMatch(pattern: string, topic: string) {
    Match(Lines(pattern), Lines(topic))
  }

  lemma {:induction false} MatchSelf(f: seq<string>)
    ensures Match(f, f)
  {
    if f == [] {
    } else {
      MatchSelf(f[1..]);
    }
  }

  /** The shortcut never changes the answer of the comparison that follows it. */
  lemma ShortcutAgrees(pattern: string, topic: string)
    requires pattern == topic || pattern == "#"
    ensures SlowMqttMatch(pattern, topic)
  {
    MatchSelf(Lines(topic));
    assert Lines("#") == ["#"];
  }

  method MqttMatch(pattern: string, topic: string) returns (ok: bool)
    ensures ok == SlowMqttMatch(pattern, topic)
  {
    if pattern == topic || pattern == "#" {
      ShortcutAgrees(pattern, topic);
      return true;
    }
    var p := SplitByGetline(pattern);
    var t := SplitByGetline(topic);
    var pi, ti := 0, 0;
    while pi < |p| && ti < |t|
      invariant 0 <= pi <= |p| && 0 <= ti <= |t|
      invariant Match(p[pi..], t[ti..]) == Match(p, t)
    {
      if p[pi] == "#" { return true; }
      if p[pi] == "+" {
        pi, ti := pi + 1, ti + 1;
        continue;
      }
      if p[pi] != t[ti] { return false; }
      pi, ti := pi + 1, ti + 1;
    }
    if pi == |p| && ti == |t| { return true; }
    if pi < |p| && p[pi] == "#" && ti == |t| { return true; }
    return false;
  }

  // ----- section 4.7 of MQTT 3.1.1 -----

  predicate LevelAccepts(f: string, t: string) {
    f == "+" || f == t
  }

  /** Topic matching as section 4.7.1 puts it: a final '#' stands for the parent level and any number of child
      levels, a '+' for exactly one level, and every other level for itself. */
  predicate Accepts(f: seq<string>, t: seq<string>) {
    if f != [] && f[|f| - 1] == "#" then
      |f| - 1 <= |t| && forall i :: 0 <= i < |f| - 1 ==> LevelAccepts(f[i], t[i])
    else
      |f| == |t| && forall i :: 0 <= i < |f| ==> LevelAccepts(f[i], t[i])
  }

  /** The filter up to and including its first '#'. */
  function UpToHash(f: seq<string>): (r: seq<string>)
    ensures |r| <= |f| && r == f[..|r|]
    ensures forall i :: 0 <= i < |r| - 1 ==> r[i] != "#"
    ensures |r| < |f| ==> r != [] && r[|r| - 1] == "#"
  {
    if f == [] then [] else if f[0] == "#" then ["#"] else [f[0]] + UpToHash(f[1..])
  }

  lemma AcceptsCons(first: string, f: seq<string>, t: seq<string>)
    requires first != "#"
    ensures Accepts([first] + f, t) <==> t != [] && LevelAccepts(first, t[0]) && Accepts(f, t[1..])
  {
    var g := [first] + f;
    assert forall i :: 0 <= i < |f| ==> g[i + 1] == f[i];
    if t != [] {
      assert forall i :: 0 <= i < |t| - 1 ==> t[1..][i] == t[i + 1];
      if LevelAccepts(first, t[0]) && Accepts(f, t[1..]) {
        forall i | 0 <= i < |g| && i < |t| && (i < |g| - 1 || g[|g| - 1] != "#") ensures LevelAccepts(g[i], t[i]) {
          assert i > 0 ==> LevelAccepts(f[i - 1], t[1..][i - 1]);
        }
      }
      if Accepts(g, t) {
        assert LevelAccepts(g[0], t[0]);
        forall i | 0 <= i < |f| && (i < |f| - 1 || f[|f| - 1] != "#") ensures LevelAccepts(f[i], t[1..][i]) {
          assert LevelAccepts(g[i + 1], t[i + 1]);
        }
      }
    }
  }

  /** On every list of levels the loop decides exactly 4.7.1 for the filter cut after its first '#':
      whatever a malformed filter holds after that is ignored. */
  lemma {:induction false} MatchIsAcceptsUpToHash(f: seq<string>, t: seq<string>)
    ensures Match(f, t) <==> Accepts(UpToHash(f), t)
  {
    if f == [] || f[0] == "#" {
    } else {
      AcceptsCons(f[0], UpToHash(f[1..]), t);
      if t != [] {
        MatchIsAcceptsUpToHash(f[1..], t[1..]);
      }
    }
  }

  /** A filter section 4.7.1 allows: wildcards fill a whole level, and '#' is the last one. */
  predicate ValidFilter(filter: string) {
    var f := Levels(filter);
    && filter != ""
    && (forall i :: 0 <= i < |f| ==> '+' in f[i] ==> f[i] == "+")
    && (forall i :: 0 <= i < |f| ==> '#' in f[i] ==> f[i] == "#" && i == |f| - 1)
  }

  lemma ValidFilterHasNoEarlyHash(filter: string)
    requires ValidFilter(filter)
    ensures UpToHash(Levels(filter)) == Levels(filter)
  {
    var f := Levels(filter);
    var r := UpToHash(f);
    if r != [] && r[|r| - 1] == "#" {
      assert '#' in f[|r| - 1];
    }
  }

  /** Wildcards at the start of a filter do not reach topics that start with '$' (section 4.7.2). */
  predicate Section47(filter: string, topic: string) {
    && Accepts(Levels(filter), Levels(topic))
    && !(topic != "" && topic[0] == '$' && filter != "" && (filter[0] == '+' || filter[0] == '#'))
  }

  /** On every valid filter the comparison decides section 4.7.1; so topic_matches is section 4.7.1 for valid filters
      with a '+', and all of section 4.7 on topics that do not start with '$'. */
  lemma MatchesSection471(filter: string, topic: string)
    requires ValidFilter(filter)
    ensures LevelsMatch(filter, topic) <==> Accepts(Levels(filter), Levels(topic))
    ensures SecureMatch(filter, topic) <==> '+' in filter && Accepts(Levels(filter), Levels(topic))
    ensures !(topic != "" && topic[0] == '$') ==>
              (SecureMatch(filter, topic) <==> '+' in filter && Section47(filter, topic))
  {
    MatchIsAcceptsUpToHash(Levels(filter), Levels(topic));
    ValidFilterHasNoEarlyHash(filter);
  }

  /** A topic name carries no wildcard characters and is not empty (sections 4.7.1 and 4.7.3). */
  predicate TopicName(topic: string) {
    topic != "" && '+' !in topic && '#' !in topic
  }

  /** Ordinary levels a filter accepts: `level` in place of each wildcard. */
  function Instance(f: seq<string>, level: string): (t: seq<string>)
    ensures |t| == |f|
    ensures forall i :: 0 <= i < |f| ==> t[i] == if f[i] == "+" || f[i] == "#" then level else f[i]
  {
    seq(|f|, i requires 0 <= i < |f| => if f[i] == "+" || f[i] == "#" then level else f[i])
  }

  lemma {:induction false} JoinKeepsOut(parts: seq<string>, c: char)
    requires c != '/' && forall part :: part in parts ==> c !in part
    ensures c !in Join(parts)
  {
    if |parts| <= 1 {
      assert parts != [] ==> parts[0] in parts;
    } else {
      assert parts[0] in parts;
      JoinKeepsOut(parts[1..], c);
    }
  }

  /** The empty level a trailing slash leaves. */
  function Tail(slash: bool): seq<string> {
    if slash then [""] else []
  }

  lemma InstanceHasNoSlash(filter: string, n: nat, level: string)
    requires n <= |Levels(filter)| && '/' !in level
    ensures forall part :: part in Instance(Levels(filter)[..n], level) ==> '/' !in part
  {
    var f := Levels(filter);
    JoinLevels(filter);
    forall part | part in Instance(f[..n], level) ensures '/' !in part {
      var i :| 0 <= i < n && Instance(f[..n], level)[i] == part;
      assert f[..n][i] == f[i] && f[i] in f;
    }
  }

  lemma InstanceHasNoWildcard(filter: string, n: nat, level: string)
    requires ValidFilter(filter) && n <= |Levels(filter)| && '+' !in level && '#' !in level
    ensures forall part :: part in Instance(Levels(filter)[..n], level) ==> '+' !in part && '#' !in part
  {
    var f := Levels(filter);
    forall part | part in Instance(f[..n], level) ensures '+' !in part && '#' !in part {
      var i :| 0 <= i < n && Instance(f[..n], level)[i] == part;
      assert f[..n][i] == f[i];
    }
  }

  /** Instances of the first levels of a valid filter join to a string without wildcards. */
  lemma InstanceJoins(filter: string, n: nat, level: string, ts: bool)
    requires ValidFilter(filter) && n <= |Levels(filter)| && '+' !in level && '#' !in level
    ensures var topic := Join(Instance(Levels(filter)[..n], level) + Tail(ts));
            '+' !in topic && '#' !in topic
  {
    InstanceHasNoWildcard(filter, n, level);
    JoinKeepsOut(Instance(Levels(filter)[..n], level) + Tail(ts), '+');
    JoinKeepsOut(Instance(Levels(filter)[..n], level) + Tail(ts), '#');
  }

  lemma FirstLevelFirstChar(s: string)
    requires s != ""
    ensures s[0] == '/' ==> Levels(s)[0] == ""
    ensures s[0] != '/' ==> Levels(s)[0] != "" && Levels(s)[0][0] == s[0]
  {
  }

  lemma OnlyHashStartsWithHash(filter: string)
    requires ValidFilter(filter) && filter[0] == '#'
    ensures filter == "#"
  {
    FirstLevelFirstChar(filter);
    JoinLevels(filter);
    assert '#' in Levels(filter)[0];
  }

  lemma StartsWithPlus(filter: string)
    requires ValidFilter(filter) && filter[0] == '+'
    ensures Levels(filter)[0] == "+"
  {
    FirstLevelFirstChar(filter);
    assert '+' in Levels(filter)[0];
  }

  /** A filter that starts with '+' accepts a topic name that starts with '$'. */
  lemma PlusReachesDollar(filter: string) returns (topic: string)
    requires ValidFilter(filter) && filter[0] == '+'
    ensures TopicName(topic) && topic[0] == '$' && LevelsMatch(filter, topic)
  {
    var f := Levels(filter);
    var t := Instance(f, "$");
    assert f[..|f|] == f && t + Tail(false) == t;
    InstanceJoins(filter, |f|, "$", false);
    InstanceHasNoSlash(filter, |f|, "$");
    LevelsJoin(t);
    topic := Join(t);
    StartsWithPlus(filter);
    assert t[0] == "$" && topic[0] == '$';
    assert Accepts(f, t);
    MatchesSection471(filter, topic);
  }

  lemma OnePart(s: string)
    requires s != "" && '/' !in s
    ensures Levels(s) == Lines(s) == Lines(s + "/") == [s] && Levels(s + "/") == [s, ""]
  {
    assert s[0..] == s;
    NoSlashAfter(s, 0);
    assert Join([s]) == s && Join([s, ""]) == s + "/";
    LevelsJoin([s, ""]);
    LinesAreLevelsOfChop(s + "/");
  }

  lemma {:induction false} JoinKeepsIn(parts: seq<string>, i: nat, c: char)
    requires i < |parts| && c in parts[i]
    ensures c in Join(parts)
  {
    if i == 0 {
    } else {
      JoinKeepsIn(parts[1..], i - 1, c);
    }
  }

  /** A character other than the slash is in a string exactly when it is in one of its levels. */
  lemma LevelsHold(s: string, c: char)
    requires c != '/'
    ensures c in s <==> exists i :: 0 <= i < |Levels(s)| && c in Levels(s)[i]
  {
    JoinLevels(s);
    if i :| 0 <= i < |Levels(s)| && c in Levels(s)[i] {
      JoinKeepsIn(Levels(s), i, c);
    } else {
      JoinKeepsOut(Levels(s), c);
    }
  }

  // ----- the two matchers compared -----

  /** For every non-empty filter and topic, mqtt_match answers what the comparison of topic_matches answers once one
      trailing slash is taken from each side; with a '+' in the filter that is the answer of topic_matches. */
  lemma MatchersAgreeUpToTrailingSlash(filter: string, topic: string)
    requires filter != "" && topic != ""
    ensures SlowMqttMatch(filter, topic) <==> LevelsMatch(Chop(filter), Chop(topic))
    ensures '+' in filter && SlowMqttMatch(filter, topic) <==> SecureMatch(Chop(filter), Chop(topic))
  {
    LinesAreLevelsOfChop(filter);
    LinesAreLevelsOfChop(topic);
    if EndsWithSlash(filter) {
      assert filter == Chop(filter) + "/";
    }
  }

  /** So mqtt_match is the rule of section 4.7.1 on both sides without a trailing slash, for the filter cut after
      its first '#'. */
  lemma MqttMatchIsAccepts(filter: string, topic: string)
    requires filter != "" && topic != ""
    ensures SlowMqttMatch(filter, topic) <==> Accepts(UpToHash(Levels(Chop(filter))), Levels(Chop(topic)))
  {
    MatchersAgreeUpToTrailingSlash(filter, topic);
    MatchIsAcceptsUpToHash(Levels(Chop(filter)), Levels(Chop(topic)));
  }

  lemma SlashParts(s: string)
    requires s != ""
    ensures var g := Levels(Chop(s));
            && Levels(s) == g + Tail(EndsWithSlash(s))
            && (!EndsWithSlash(s) ==> g[|g| - 1] != "")
  {
    LevelsAndLines(s, 0);
    LinesAreLevelsOfChop(s);
    var f := Levels(s);
    if !EndsWithSlash(s) && f[|f| - 1] == "" {
      JoinLevels(s);
      var front := f[..|f| - 1];
      assert f == front + [""];
      assert front == [] ==> Join(f) == "";
      JoinSnocEmpty(front);
    }
  }

  predicate EndsInHash(f: seq<string>) {
    f != [] && f[|f| - 1] == "#"
  }

  lemma {:induction false} UpToHashSnocEmpty(f: seq<string>)
    ensures UpToHash(f + [""]) == UpToHash(f) + if EndsInHash(UpToHash(f)) then [] else [""]
    ensures EndsInHash(UpToHash(f)) || UpToHash(f) == f
  {
    if f == [] {
      assert UpToHash([""]) == [""];
    } else {
      assert (f + [""])[0] == f[0] && (f + [""])[1..] == f[1..] + [""];
      if f[0] != "#" {
        UpToHashSnocEmpty(f[1..]);
        Associate([f[0]], UpToHash(f[1..]), if EndsInHash(UpToHash(f[1..])) then [] else [""]);
      }
    }
  }

  /** The filters whose answer does not depend on which of the two splits is used: with a '#', there is at most one
      level before it or the last such level is neither '+' nor empty; without, the filter ends in two empty
      levels. */
  predicate Tolerates(f: seq<string>) {
    var r := UpToHash(f);
    if EndsInHash(r) then |r| <= 2 || (r[|r| - 2] != "+" && r[|r| - 2] != "")
    else |f| >= 2 && f[|f| - 1] == "" && f[|f| - 2] == ""
  }

  predicate SplitDoesNotMatter(filter: string) {
    Tolerates(Levels(filter))
  }

  /** One more empty level changes the answer of a filter that ends in '#' only by filling the last place before it. */
  lemma HashAndEmptyLevel(r: seq<string>, t: seq<string>)
    requires EndsInHash(r) && t != []
    requires |r| <= 2 || (r[|r| - 2] != "+" && r[|r| - 2] != "")
    ensures Accepts(r, t + [""]) <==> Accepts(r, t)
  {
    var u := t + [""];
    assert forall i :: 0 <= i < |t| ==> u[i] == t[i];
    if |t| == |r| - 2 {
      assert !LevelAccepts(r[|r| - 2], u[|r| - 2]);
    }
  }

  lemma EmptyLevelsOnBothSides(f: seq<string>, t: seq<string>)
    requires !EndsInHash(f)
    ensures Accepts(f + [""], t + [""]) <==> Accepts(f, t)
  {
    var g, u := f + [""], t + [""];
    assert forall i :: 0 <= i < |f| ==> g[i] == f[i];
    assert forall i :: 0 <= i < |t| ==> u[i] == t[i];
  }

  lemma LastMustBeEmpty(f: seq<string>, t: seq<string>)
    requires f != [] && f[|f| - 1] == "" && t != [] && t[|t| - 1] != ""
    ensures !Accepts(f, t)
  {
    assert |f| == |t| ==> !LevelAccepts(f[|f| - 1], t[|f| - 1]);
  }

  predicate NoHash(f: seq<string>) {
    forall i :: 0 <= i < |f| ==> f[i] != "#"
  }

  lemma UpToHashWithoutHash(f: seq<string>)
    requires !EndsInHash(UpToHash(f))
    ensures UpToHash(f) == f && NoHash(f)
  {
  }

  lemma ToleratesWithoutHash(g: seq<string>, u: seq<string>, ts: bool)
    requires g != [] && NoHash(g) && g[|g| - 1] == "" && u != [] && (!ts ==> u[|u| - 1] != "")
    ensures Accepts(g, u) <==> Accepts(g + [""], u + Tail(ts))
  {
    if ts {
      EmptyLevelsOnBothSides(g, u);
    } else {
      assert u + [] == u;
      LastMustBeEmpty(g + [""], u);
      LastMustBeEmpty(g, u);
    }
  }

  lemma UpToHashTail(g: seq<string>, fs: bool)
    ensures var r := UpToHash(g + Tail(fs));
            if EndsInHash(r) then r == UpToHash(g)
            else r == g + Tail(fs) && UpToHash(g) == g && NoHash(g)
  {
    UpToHashSnocEmpty(g);
    if !fs { assert g + Tail(fs) == g; }
    if !EndsInHash(UpToHash(g)) { UpToHashWithoutHash(g); }
  }

  lemma ToleratesWithHash(g: seq<string>, fs: bool, u: seq<string>, ts: bool)
    requires u != [] && Tolerates(g + Tail(fs)) && EndsInHash(UpToHash(g + Tail(fs)))
    ensures Accepts(UpToHash(g), u) <==> Accepts(UpToHash(g + Tail(fs)), u + Tail(ts))
  {
    UpToHashTail(g, fs);
    var r := UpToHash(g);
    if ts {
      HashAndEmptyLevel(r, u);
    } else {
      assert u + Tail(ts) == u;
    }
  }

  lemma LastTwoLevels(g: seq<string>, fs: bool)
    requires g != [] && (!fs ==> g[|g| - 1] != "")
    requires var f := g + Tail(fs); |f| >= 2 && f[|f| - 1] == "" && f[|f| - 2] == ""
    ensures fs && g[|g| - 1] == ""
  {
    assert !fs ==> g + Tail(fs) == g;
  }

  lemma ToleratesSuffices(g: seq<string>, fs: bool, u: seq<string>, ts: bool)
    requires g != [] && u != [] && (!fs ==> g[|g| - 1] != "") && (!ts ==> u[|u| - 1] != "")
    requires Tolerates(g + Tail(fs))
    ensures Accepts(UpToHash(g), u) <==> Accepts(UpToHash(g + Tail(fs)), u + Tail(ts))
  {
    UpToHashTail(g, fs);
    if EndsInHash(UpToHash(g + Tail(fs))) {
      ToleratesWithHash(g, fs, u, ts);
    } else {
      LastTwoLevels(g, fs);
      ToleratesWithoutHash(g, u, ts);
    }
  }

  lemma InstanceAccepted(f: seq<string>, level: string)
    requires NoHash(f)
    ensures Accepts(f, Instance(f, level))
  {
  }

  lemma InstanceFillsUpToHash(r: seq<string>, t: seq<string>)
    requires EndsInHash(r) && |r| >= 3 && (r[|r| - 2] == "+" || r[|r| - 2] == "")
    requires forall i :: 0 <= i < |r| - 1 ==> r[i] != "#"
    requires t == Instance(r[..|r| - 2], "x")
    ensures Accepts(r, t + [""]) && !Accepts(r, t)
  {
    var u := t + [""];
    forall i | 0 <= i < |r| - 1 ensures LevelAccepts(r[i], u[i]) {
      assert i < |r| - 2 ==> u[i] == t[i] && r[..|r| - 2][i] == r[i];
    }
  }

  predicate InstanceDiffers(g: seq<string>, f: seq<string>, n: nat, ts: bool)
    requires 1 <= n <= |f|
  {
    var u := Instance(f[..n], "x");
    && (!ts ==> u[n - 1] != "")
    && (Accepts(UpToHash(g), u) <==> !Accepts(UpToHash(f), u + Tail(ts)))
  }

  lemma DiffersWithHash(g: seq<string>, f: seq<string>)
    requires EndsInHash(UpToHash(f)) && UpToHash(g) == UpToHash(f) && !Tolerates(f)
    ensures |UpToHash(f)| >= 3 && InstanceDiffers(g, f, |UpToHash(f)| - 2, true)
  {
    var r := UpToHash(f);
    assert f[..|r| - 2] == r[..|r| - 2];
    InstanceFillsUpToHash(r, Instance(f[..|r| - 2], "x"));
  }

  lemma DiffersWithoutHash(g: seq<string>, fs: bool)
    requires g != [] && NoHash(g) && UpToHash(g) == g && UpToHash(g + Tail(fs)) == g + Tail(fs)
    requires g[|g| - 1] != ""
    ensures InstanceDiffers(g, g + Tail(fs), |g|, !fs)
  {
    var f := g + Tail(fs);
    assert f[..|g|] == g;
    InstanceAccepted(g, "x");
    assert |f| != |Instance(g, "x") + Tail(!fs)|;
  }

  lemma LastIsNotEmpty(g: seq<string>, fs: bool)
    requires g != [] && (!fs ==> g[|g| - 1] != "")
    requires var f := g + Tail(fs); !(|f| >= 2 && f[|f| - 1] == "" && f[|f| - 2] == "")
    ensures g[|g| - 1] != ""
  {
    if fs { assert (g + [""])[|g| - 1] == g[|g| - 1]; }
  }

  /** For every other list of levels there is an instance of its first levels on which the splits differ. */
  lemma ToleratesIsNeeded(g: seq<string>, fs: bool) returns (n: nat, ts: bool)
    requires g != [] && (!fs ==> g[|g| - 1] != "") && !Tolerates(g + Tail(fs))
    ensures 1 <= n <= |g + Tail(fs)| && InstanceDiffers(g, g + Tail(fs), n, ts)
  {
    var f := g + Tail(fs);
    UpToHashTail(g, fs);
    if EndsInHash(UpToHash(f)) {
      n, ts := |UpToHash(f)| - 2, true;
      DiffersWithHash(g, f);
    } else {
      n, ts := |g|, !fs;
      LastIsNotEmpty(g, fs);
      DiffersWithoutHash(g, fs);
    }
  }

  lemma ChopOfJoin(u: seq<string>, ts: bool)
    requires u != [] && (!ts ==> u[|u| - 1] != "")
    requires forall part :: part in u ==> '/' !in part
    ensures var topic := Join(u + Tail(ts));
            topic != "" && Levels(topic) == u + Tail(ts) && Levels(Chop(topic)) == u
  {
    var topic := Join(u + Tail(ts));
    assert u + [] == u;
    LevelsJoin(u);
    LevelsJoin(u + Tail(ts));
    JoinSnocEmpty(u);
    if ts {
      assert Chop(topic) == Join(u);
    } else {
      assert Levels("") == [""];
      SlashParts(topic);
    }
  }

  lemma TopicFrom(filter: string, n: nat, ts: bool) returns (topic: string)
    requires 1 <= n <= |Levels(filter)|
    requires !ts ==> Instance(Levels(filter)[..n], "x")[n - 1] != ""
    ensures var u := Instance(Levels(filter)[..n], "x");
            topic != "" && Levels(topic) == u + Tail(ts) && Levels(Chop(topic)) == u
    ensures ValidFilter(filter) ==> TopicName(topic)
  {
    var u := Instance(Levels(filter)[..n], "x");
    InstanceHasNoSlash(filter, n, "x");
    ChopOfJoin(u, ts);
    topic := Join(u + Tail(ts));
    if ValidFilter(filter) { InstanceJoins(filter, n, "x", ts); }
  }

  /** A topic on which the comparisons differ, for every filter to which the split matters; for a valid filter it is a
      topic name. */
  lemma SplitMatters(filter: string) returns (topic: string)
    requires filter != "" && !SplitDoesNotMatter(filter)
    ensures topic != "" && !(SlowMqttMatch(filter, topic) <==> LevelsMatch(filter, topic))
    ensures ValidFilter(filter) ==> TopicName(topic)
  {
    SlashParts(filter);
    var n, ts := ToleratesIsNeeded(Levels(Chop(filter)), EndsWithSlash(filter));
    var u := Instance(Levels(filter)[..n], "x");
    topic := TopicFrom(filter, n, ts);
    MqttMatchIsAccepts(filter, topic);
    MatchIsAcceptsUpToHash(Levels(filter), Levels(topic));
  }

  lemma SplitDoesNotMatterSuffices(filter: string, topic: string)
    requires filter != "" && topic != "" && SplitDoesNotMatter(filter)
    ensures SlowMqttMatch(filter, topic) <==> LevelsMatch(filter, topic)
  {
    SlashParts(filter);
    SlashParts(topic);
    ToleratesSuffices(Levels(Chop(filter)), EndsWithSlash(filter), Levels(Chop(topic)), EndsWithSlash(topic));
    MqttMatchIsAccepts(filter, topic);
    MatchIsAcceptsUpToHash(Levels(filter), Levels(topic));
  }

  /** For every filter, the two comparisons give the same answer on all non-empty topics if and only if the split
      does not matter to it; for a valid filter it is enough to look at topic names. */
  lemma ComparisonsAgreeIff(filter: string)
    requires filter != ""
    ensures (forall topic :: topic != "" ==> (SlowMqttMatch(filter, topic) <==> LevelsMatch(filter, topic))) <==>
            SplitDoesNotMatter(filter)
    ensures ValidFilter(filter) ==>
              ((forall topic :: TopicName(topic) ==>
                  (SlowMqttMatch(filter, topic) <==> LevelsMatch(filter, topic))) <==>
               SplitDoesNotMatter(filter))
  {
    if SplitDoesNotMatter(filter) {
      forall topic | topic != "" ensures SlowMqttMatch(filter, topic) <==> LevelsMatch(filter, topic) {
        SplitDoesNotMatterSuffices(filter, topic);
      }
    } else {
      var topic := SplitMatters(filter);
    }
  }

  lemma HashIsLast(filter: string)
    requires ValidFilter(filter) && '#' in filter
    ensures EndsInHash(Levels(filter)) && Levels(Chop(filter)) == Levels(filter)
    ensures UpToHash(Levels(filter)) == Levels(filter)
  {
    var f := Levels(filter);
    LevelsHold(filter, '#');
    assert f[|f| - 1] == "#";
    SlashParts(filter);
    assert !EndsWithSlash(filter) ==> f + Tail(false) == f;
    ValidFilterHasNoEarlyHash(filter);
  }

  lemma InstanceUnderHash(f: seq<string>)
    requires EndsInHash(f) && UpToHash(f) == f
    ensures var t := Instance(f[..|f|], "x");
            t[|f| - 1] == "x" && t + Tail(false) == t && Accepts(f, t)
  {
    assert f[..|f|] == f;
  }

  lemma AcceptedUnderHash(filter: string) returns (topic: string)
    requires ValidFilter(filter) && '#' in filter
    ensures TopicName(topic) && Accepts(Levels(filter), Levels(topic)) && SlowMqttMatch(filter, topic)
  {
    HashIsLast(filter);
    InstanceUnderHash(Levels(filter));
    topic := TopicFrom(filter, |Levels(filter)|, false);
    MqttMatchIsAccepts(filter, topic);
  }

  /** Every valid filter without a '+' accepts some topic name, and mqtt_match says so. */
  lemma AcceptedName(filter: string) returns (topic: string)
    requires ValidFilter(filter) && '+' !in filter
    ensures TopicName(topic) && Accepts(Levels(filter), Levels(topic)) && SlowMqttMatch(filter, topic)
    ensures filter == "#" ==> topic == "x"
  {
    if filter == "#" {
      topic := "x";
      ShortcutAgrees(filter, topic);
      OnePart(filter);
    } else if '#' in filter {
      topic := AcceptedUnderHash(filter);
    } else {
      topic := filter;
      ShortcutAgrees(filter, filter);
      LevelsHold(filter, '#');
    }
  }

  /** topic_matches is section 4.7.1 on every topic name if and only if the valid filter has a '+', and all of
      section 4.7 if and only if moreover it does not start with '+'. */
  lemma FollowsSection47Iff(filter: string)
    requires ValidFilter(filter)
    ensures (forall topic :: TopicName(topic) ==>
               (SecureMatch(filter, topic) <==> Accepts(Levels(filter), Levels(topic)))) <==>
            '+' in filter
    ensures (forall topic :: TopicName(topic) ==> (SecureMatch(filter, topic) <==> Section47(filter, topic))) <==>
            '+' in filter && filter[0] != '+'
  {
    forall topic
      ensures SecureMatch(filter, topic) <==> '+' in filter && Accepts(Levels(filter), Levels(topic))
    {
      MatchesSection471(filter, topic);
    }
    if '+' !in filter {
      var topic := AcceptedName(filter);
      if filter[0] == '#' { OnlyHashStartsWithHash(filter); }
      assert Section47(filter, topic);
    } else if filter[0] == '+' {
      var topic := PlusReachesDollar(filter);
      assert !Section47(filter, topic);
    } else if filter[0] == '#' {
      OnlyHashStartsWithHash(filter);
      assert false;
    }
  }

  /** For every filter, topic_matches and mqtt_match give the same answer on all non-empty topics if and only if the
      filter has a '+' and the split does not matter to it; for a valid filter it is enough to look at topic names. */
  lemma MatchersAgreeIff(filter: string)
    requires filter != ""
    ensures (forall topic :: topic != "" ==> (SlowMqttMatch(filter, topic) <==> SecureMatch(filter, topic))) <==>
            '+' in filter && SplitDoesNotMatter(filter)
    ensures ValidFilter(filter) ==>
              ((forall topic :: TopicName(topic) ==>
                  (SlowMqttMatch(filter, topic) <==> SecureMatch(filter, topic))) <==>
               '+' in filter && SplitDoesNotMatter(filter))
  {
    ComparisonsAgreeIff(filter);
    if '+' !in filter {
      ShortcutAgrees(filter, filter);
      if ValidFilter(filter) {
        var topic := AcceptedName(filter);
      }
    } else {
      forall topic ensures SecureMatch(filter, topic) <==> LevelsMatch(filter, topic) {}
    }
  }

  lemma MatchesNothingIff(f: seq<string>)
    ensures Match(f, []) <==> f == [] || f[0] == "#"
    ensures f != [] ==> (Match(f, [""]) <==> f[0] == "#" || ((f[0] == "+" || f[0] == "") && Match(f[1..], [])))
  {
  }

  /** On the empty topic, which one split gives one level and the other none, they agree if and only if the filter
      has a '+' but does not begin with a '+' or empty level that stands alone or before a '#', or has no '+' and does
      not begin with a '#' level. */
  lemma AgreeOnEmptyTopicIff(filter: string)
    requires filter != ""
    ensures var f := Levels(filter);
            (SlowMqttMatch(filter, "") <==> SecureMatch(filter, "")) <==>
            if '+' in filter then !((f[0] == "+" || f[0] == "") && (|f| == 1 || f[1] == "#")) else f[0] != "#"
  {
    var f, p := Levels(filter), Lines(filter);
    LevelsAndLines(filter, 0);
    MatchesNothingIff(f);
    MatchesNothingIff(f[1..]);
    MatchesNothingIff(p);
    assert p[0] == f[0];
    assert Levels("") == [""] && Lines("") == [];
  }

  /** mqtt_match is section 4.7.1 on every topic name if and only if the split does not matter to the filter. */
  lemma MqttMatchIsSection471Iff(filter: string)
    requires ValidFilter(filter)
    ensures (forall topic :: TopicName(topic) ==>
               (SlowMqttMatch(filter, topic) <==> Accepts(Levels(filter), Levels(topic)))) <==>
            SplitDoesNotMatter(filter)
  {
    ComparisonsAgreeIff(filter);
    forall topic ensures LevelsMatch(filter, topic) <==> Accepts(Levels(filter), Levels(topic)) {
      MatchesSection471(filter, topic);
    }
  }

  /** Where neither side ends in a slash, topic_matches answers what mqtt_match answers, except that it says no to
      every filter without a '+'. */
  lemma MatchersAgree(filter: string, topic: string)
    requires filter != "" && topic != ""
    requires !EndsWithSlash(filter) && !EndsWithSlash(topic)
    ensures SecureMatch(filter, topic) <==> '+' in filter && SlowMqttMatch(filter, topic)
  {
    MatchersAgreeUpToTrailingSlash(filter, topic);
  }

  /** The smallest inputs on which they differ: a slash on one side alone, an empty topic, or no '+'. */
  lemma MatchersDiffer()
    ensures SlowMqttMatch("+/", "a") && !SecureMatch("+/", "a")
    ensures SlowMqttMatch("+", "a/") && !SecureMatch("+", "a/")
    ensures !SlowMqttMatch("+", "") && SecureMatch("+", "")
    ensures SlowMqttMatch("a", "a") && !SecureMatch("a", "a")
  {
    OnePart("+");
    OnePart("a");
    assert Levels("") == [""] && Lines("") == [];
  }

  // ----- the test for one verified callback -----

  predicate EndsInSlashHash(filter: string) {
    |filter| >= 2 && filter[|filter| - 2..] == "/#"
  }

  /** Whether a callback registered for the filter may get a message on the topic. */
  predicate CallbackMatches(filter: string, topic: string) {
    || filter == topic
    || filter == "#"
    || (EndsInSlashHash(filter) && filter[..|filter| - 2] <= topic)
    || SecureMatch(filter, topic)
  }

  lemma {:induction false} JoinExtendLast(parts: seq<string>, last: string, more: string)
    ensures Join(parts + [last + more]) == Join(parts + [last]) + more
  {
    if parts == [] {
      assert [] + [last] == [last] && [] + [last + more] == [last + more];
    } else {
      JoinExtendLast(parts[1..], last, more);
      assert (parts + [last])[1..] == parts[1..] + [last];
      assert (parts + [last + more])[1..] == parts[1..] + [last + more];
    }
  }

  lemma {:induction false} JoinSnoc(parts: seq<string>, last: string)
    requires parts != []
    ensures Join(parts + [last]) == Join(parts) + "/" + last
  {
    if |parts| == 1 {
      assert parts + [last] == [parts[0], last];
    } else {
      JoinSnoc(parts[1..], last);
      assert (parts + [last])[1..] == parts[1..] + [last];
    }
  }

  /** The levels before a final '#' level. */
  lemma BeforeHash(filter: string)
    requires ValidFilter(filter) && '#' in filter && filter != "#"
    ensures var f := Levels(filter);
            && |f| >= 2 && f[|f| - 1] == "#"
            && filter == Join(f[..|f| - 1]) + "/#" && EndsInSlashHash(filter)
  {
    var f := Levels(filter);
    JoinLevels(filter);
    LevelsHold(filter, '#');
    assert f[|f| - 1] == "#";
    assert f == f[..|f| - 1] + ["#"];
    if |f| >= 2 {
      JoinSnoc(f[..|f| - 1], "#");
    }
  }

  lemma PlainLevelsAccept(f: seq<string>, t: seq<string>)
    requires forall i :: 0 <= i < |f| ==> f[i] != "+" && f[i] != "#"
    ensures Accepts(f, t) <==> f == t
  {
  }

  lemma NameFrom(front: seq<string>, last: string) returns (topic: string)
    requires forall part :: part in front + [last + "x"] ==> '/' !in part && '+' !in part && '#' !in part
    ensures TopicName(topic) && topic == Join(front + [last]) + "x" && Levels(topic) == front + [last + "x"]
  {
    topic := Join(front + [last + "x"]);
    JoinExtendLast(front, last, "x");
    LevelsJoin(front + [last + "x"]);
    JoinKeepsOut(front + [last + "x"], '+');
    JoinKeepsOut(front + [last + "x"], '#');
  }

  lemma OneLevelOff(f: seq<string>, front: seq<string>, last: string)
    requires f == front + [last] + ["#"] && last != "+"
    ensures !Accepts(f, front + [last + "x"])
  {
    var u := front + [last + "x"];
    assert f[|front|] == last && u[|front|] == last + "x" && !LevelAccepts(f[|front|], u[|front|]);
  }

  lemma EndOfFilter(filter: string, front: seq<string>, last: string)
    requires ValidFilter(filter) && '+' !in filter && Levels(filter) == front + [last] + ["#"]
    ensures last != "+" && forall part :: part in front + [last + "x"] ==> '/' !in part && '+' !in part && '#' !in part
  {
    var f := Levels(filter);
    JoinLevels(filter);
    LevelsHold(filter, '+');
    assert f[|front|] == last;
    forall part | part in front ensures '/' !in part && '+' !in part && '#' !in part {
      var i :| 0 <= i < |front| && front[i] == part;
      assert f[i] == part;
    }
  }

  /** The prefix branch takes a topic whose last level merely begins like the filter's. */
  lemma PrefixReachesTooFar(filter: string) returns (topic: string)
    requires ValidFilter(filter) && '+' !in filter && EndsInSlashHash(filter)
    ensures TopicName(topic) && CallbackMatches(filter, topic) && !Accepts(Levels(filter), Levels(topic))
  {
    var f := Levels(filter);
    assert filter[|filter| - 2..][1] == '#' && filter[|filter| - 2..][0] == '/';
    BeforeHash(filter);
    var front, last := f[..|f| - 2], f[|f| - 2];
    assert f[..|f| - 1] == front + [last] && f == front + [last] + ["#"];
    EndOfFilter(filter, front, last);
    OneLevelOff(f, front, last);
    topic := NameFrom(front, last);
  }

  lemma CallbackOnName(filter: string, topic: string)
    requires ValidFilter(filter) && TopicName(topic) && ('+' in filter || !EndsInSlashHash(filter))
    ensures CallbackMatches(filter, topic) <==> Accepts(Levels(filter), Levels(topic))
  {
    MatchesSection471(filter, topic);
    if '+' in filter {
      if EndsInSlashHash(filter) {
        assert '+' in filter[..|filter| - 2];
      }
    } else if '#' in filter {
      if filter != "#" { BeforeHash(filter); }
      OnePart("#");
    } else {
      LevelsHold(filter, '+');
      LevelsHold(filter, '#');
      JoinLevels(filter);
      JoinLevels(topic);
      PlainLevelsAccept(Levels(filter), Levels(topic));
    }
  }

  /** For every valid filter, the test for one verified callback is section 4.7.1 on all topic names if and only if the
      filter has a '+' or does not end in "/#": there the test compares a prefix of the string, not levels. */
  lemma CallbackIsSection471Iff(filter: string)
    requires ValidFilter(filter)
    ensures (forall topic :: TopicName(topic) ==>
               (CallbackMatches(filter, topic) <==> Accepts(Levels(filter), Levels(topic)))) <==>
            '+' in filter || !EndsInSlashHash(filter)
  {
    if '+' in filter || !EndsInSlashHash(filter) {
      forall topic | TopicName(topic)
        ensures CallbackMatches(filter, topic) <==> Accepts(Levels(filter), Levels(topic))
      {
        CallbackOnName(filter, topic);
      }
    } else {
      var topic := PrefixReachesTooFar(filter);
    }
  }
}
