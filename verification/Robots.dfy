/** robots.txt: wildcard matching, the longest-match rule and the grouping of rules under user
    agents (browser/net_robots.go; RFC 9309, sections 2.2.1 to 2.2.3). */
module Robots {

  datatype Rule = Rule(allow: bool, pattern: string)

  // ---------- what a pattern means ----------

  /** Glob matching of the whole text; '*' stands for any run of characters. */
  predicate Glob(p: string, s: string)
    decreases |p|
  {
    if p == "" then s == ""
    else if p[0] == '*' then exists k :: 0 <= k <= |s| && Glob(p[1..], s[k..])
    else s != "" && s[0] == p[0] && Glob(p[1..], s[1..])
  }

  predicate Anchored(pattern: string) {
    pattern != "" && pattern[|pattern| - 1] == '$'
  }

  /** The pattern without its trailing anchor. */
  function Core(pattern: string): string {
    if Anchored(pattern) then pattern[..|pattern| - 1] else pattern
  }

  /** A pattern matches a prefix of the path, or the whole path when it is anchored. */
  predicate Matches(pattern: string, path: string) {
    pattern != "" && Glob(if Anchored(pattern) then Core(pattern) else pattern + "*", path)
  }

  predicate NoStar(s: string) {
    forall i :: 0 <= i < |s| ==> s[i] != '*'
  }

  /** part occurs in s at i. */
  predicate At(s: string, part: string, i: int) {
    0 <= i && i + |part| <= |s| && s[i..i + |part|] == part
  }

  // ---------- glob facts ----------

  lemma {:induction false} GlobPart(part: string, q: string, s: string)
    requires NoStar(part)
    ensures Glob(part + q, s) <==> At(s, part, 0) && Glob(q, s[|part|..])
  {
    if part == "" {
      assert part + q == q && s[0..] == s;
    } else {
      assert (part + q)[0] == part[0] && (part + q)[1..] == part[1..] + q;
      if s != "" && s[0] == part[0] {
        GlobPart(part[1..], q, s[1..]);
        if At(s[1..], part[1..], 0) {
          assert s[..|part|] == [s[0]] + s[1..][..|part| - 1];
          assert s[1..][|part| - 1..] == s[|part|..];
        }
        if At(s, part, 0) {
          assert s[1..][..|part| - 1] == s[..|part|][1..];
          assert s[1..][|part| - 1..] == s[|part|..];
        }
      }
    }
  }

  /** q matches the rest of s from pos on. */
  predicate From(q: string, s: string, pos: int) {
    0 <= pos <= |s| && Glob(q, s[pos..])
  }

  lemma FromStar(q: string, s: string, pos: nat)
    requires pos <= |s|
    ensures From("*" + q, s, pos) <==> exists k :: pos <= k && From(q, s, k)
  {
    assert ("*" + q)[1..] == q;
    var t := s[pos..];
    forall k | 0 <= k <= |t| ensures t[k..] == s[pos + k..] {}
    if k :| pos <= k && From(q, s, k) {
      assert t[k - pos..] == s[k..];
    }
    if j :| From("*" + q, s, pos) && 0 <= j <= |t| && Glob(q, t[j..]) {
      assert From(q, s, pos + j);
    }
  }

  lemma FromPart(part: string, q: string, s: string, i: int)
    requires NoStar(part)
    ensures From(part + q, s, i) <==> At(s, part, i) && From(q, s, i + |part|)
  {
    if 0 <= i <= |s| {
      GlobPart(part, q, s[i..]);
      if i + |part| <= |s| {
        assert s[i..][..|part|] == s[i..i + |part|];
        assert s[i..][|part|..] == s[i + |part|..];
      }
    }
  }

  lemma FromEnd(s: string, i: int)
    ensures From("", s, i) <==> i == |s|
  {}

  lemma StarMatchesAll(s: string, pos: nat)
    requires pos <= |s|
    ensures From("*", s, pos)
  {
    FromStar("", s, pos);
    FromEnd(s, |s|);
    assert "*" + "" == "*";
  }

  /** i is the leftmost place of part in s from pos on. */
  predicate Leftmost(s: string, part: string, pos: int, i: int) {
    pos <= i && At(s, part, i) && forall j :: pos <= j < i ==> !At(s, part, j)
  }

  /** Taking the leftmost occurrence of a part loses no match. */
  lemma Greedy(part: string, q: string, s: string, pos: nat, i: int)
    requires NoStar(part) && pos <= |s| && Leftmost(s, part, pos, i)
    ensures From("*" + (part + ("*" + q)), s, pos) <==> From("*" + q, s, i + |part|)
  {
    hide From;
    FromStar(part + ("*" + q), s, pos);
    FromStar(q, s, i + |part|);
    FromPart(part, "*" + q, s, i);
    if k :| pos <= k && From(part + ("*" + q), s, k) {
      FromPart(part, "*" + q, s, k);
      FromStar(q, s, k + |part|);
    }
  }

  /** A part that does not occur cannot be matched after a star. */
  lemma Absent(part: string, q: string, s: string, pos: nat)
    requires NoStar(part) && pos <= |s| && forall j :: pos <= j ==> !At(s, part, j)
    ensures !From("*" + (part + q), s, pos)
  {
    hide From;
    FromStar(part + q, s, pos);
    forall k | pos <= k ensures !From(part + q, s, k) {
      FromPart(part, q, s, k);
    }
  }

  /** A star and a last part match exactly the texts that end with it. */
  lemma LastPart(part: string, s: string, pos: nat)
    requires NoStar(part) && pos <= |s|
    ensures From("*" + part, s, pos) <==> pos <= |s| - |part| && At(s, part, |s| - |part|)
  {
    hide From;
    FromStar(part, s, pos);
    assert part + "" == part;
    FromPart(part, "", s, |s| - |part|);
    FromEnd(s, |s|);
    forall k | pos <= k && From(part, s, k) ensures k == |s| - |part| {
      FromPart(part, "", s, k);
      FromEnd(s, k + |part|);
    }
  }

  // ---------- the matcher ----------

  /** The runs between the stars, as strings.Split gives them. */
  function Split(p: string): (parts: seq<string>)
    ensures parts != [] && forall i :: 0 <= i < |parts| ==> NoStar(parts[i])
  {
    if p == "" then [""]
    else
      var rest := Split(p[1..]);
      if p[0] == '*' then [""] + rest else [[p[0]] + rest[0]] + rest[1..]
  }

  function HasPrefix(s: string, part: string): (r: bool)
    ensures r <==> At(s, part, 0)
  {
    |part| <= |s| && s[..|part|] == part
  }

  function HasSuffix(s: string, part: string): (r: bool)
    ensures r <==> At(s, part, |s| - |part|)
  {
    |part| <= |s| && s[|s| - |part|..] == part
  }

  /** strings.Index in the rest of s. */
  function Find(s: string, part: string, pos: nat): (i: int)
    ensures i >= 0 ==> Leftmost(s, part, pos, i)
    ensures i < 0 ==> forall j :: pos <= j ==> !At(s, part, j)
    decreases |s| - pos
  {
    if pos + |part| > |s| then -1
    else if s[pos..pos + |part|] == part then pos
    else Find(s, part, pos + 1)
  }

  /** The pattern from part i on, with the star before it; a star at the end unless anchored. */
  ghost function Tail(parts: seq<string>, i: nat, anchored: bool): string
    requires i <= |parts|
    decreases |parts| - i
  {
    if i == |parts| then (if anchored then "" else "*") else "*" + (parts[i] + Tail(parts, i + 1, anchored))
  }

  lemma TailShift(a: string, parts: seq<string>, i: nat, anchored: bool)
    requires i <= |parts|
    ensures Tail([a] + parts, i + 1, anchored) == Tail(parts, i, anchored)
    decreases |parts| - i
  {
    if i < |parts| { TailShift(a, parts, i + 1, anchored); }
  }

  lemma {:induction false} SplitTail(p: string, anchored: bool)
    ensures Split(p)[0] + Tail(Split(p), 1, anchored) == if anchored then p else p + "*"
  {
    hide Tail;
    if p == "" {
      TailOfNothing(anchored);
    } else {
      SplitTail(p[1..], anchored);
      assert p == [p[0]] + p[1..];
      if p[0] == '*' {
        SplitTailStar(p, anchored);
      } else {
        SplitTailOther(p, anchored);
      }
    }
  }

  lemma TailOfNothing(anchored: bool)
    ensures Split("")[0] + Tail(Split(""), 1, anchored) == if anchored then "" else "" + "*"
  {}

  lemma SplitTailStar(p: string, anchored: bool)
    requires p != "" && p[0] == '*'
    ensures Split(p)[0] + Tail(Split(p), 1, anchored) == [p[0]] + (Split(p[1..])[0] + Tail(Split(p[1..]), 1, anchored))
  {
    var rest := Split(p[1..]);
    assert Split(p) == [""] + rest;
    hide Split;
    TailShift("", rest, 0, anchored);
    assert "" + Tail(Split(p), 1, anchored) == Tail(rest, 0, anchored);
  }

  lemma SplitTailOther(p: string, anchored: bool)
    requires p != "" && p[0] != '*'
    ensures Split(p)[0] + Tail(Split(p), 1, anchored) == [p[0]] + (Split(p[1..])[0] + Tail(Split(p[1..]), 1, anchored))
  {
    var rest := Split(p[1..]);
    assert Split(p) == [[p[0]] + rest[0]] + rest[1..];
    hide Split, Tail;
    assert rest == [rest[0]] + rest[1..];
    TailShift(rest[0], rest[1..], 0, anchored);
    TailShift([p[0]] + rest[0], rest[1..], 0, anchored);
    var tail := Tail(rest, 1, anchored);
    assert [p[0]] + rest[0] + tail == [p[0]] + (rest[0] + tail);
  }

  /** Two stars in a row are one. */
  lemma TailEmpty(parts: seq<string>, i: nat, anchored: bool, s: string, pos: nat)
    requires i < |parts| && parts[i] == "" && (i + 1 < |parts| || !anchored) && pos <= |s|
    ensures From(Tail(parts, i, anchored), s, pos) <==> From(Tail(parts, i + 1, anchored), s, pos)
  {
    var q := if i + 1 == |parts| then "" else parts[i + 1] + Tail(parts, i + 2, anchored);
    assert "*" + "" == "*";
    assert Tail(parts, i + 1, anchored) == "*" + q;
    Greedy("", q, s, pos, pos);
  }

  lemma TailFound(parts: seq<string>, i: nat, anchored: bool, s: string, pos: nat, k: int)
    requires i < |parts| && NoStar(parts[i]) && (i + 1 < |parts| || !anchored) && pos <= |s|
             && Leftmost(s, parts[i], pos, k)
    ensures From(Tail(parts, i, anchored), s, pos) <==> From(Tail(parts, i + 1, anchored), s, k + |parts[i]|)
  {
    var q := if i + 1 == |parts| then "" else parts[i + 1] + Tail(parts, i + 2, anchored);
    assert "*" + "" == "*";
    assert Tail(parts, i + 1, anchored) == "*" + q;
    Greedy(parts[i], q, s, pos, k);
  }

  lemma TailLast(parts: seq<string>, s: string, pos: nat)
    requires parts != [] && NoStar(parts[|parts| - 1]) && pos <= |s|
    ensures var last := parts[|parts| - 1];
            From(Tail(parts, |parts| - 1, true), s, pos) <==> pos <= |s| - |last| && At(s, last, |s| - |last|)
  {
    var last := parts[|parts| - 1];
    assert last + "" == last;
    assert Tail(parts, |parts| - 1, true) == "*" + (last + Tail(parts, |parts|, true));
    LastPart(last, s, pos);
  }

  lemma Started(pattern: string, path: string)
    requires pattern != ""
    ensures var parts := Split(Core(pattern));
            Matches(pattern, path) <==>
              At(path, parts[0], 0) && From(Tail(parts, 1, Anchored(pattern)), path, |parts[0]|)
  {
    var parts := Split(Core(pattern));
    SplitTail(Core(pattern), Anchored(pattern));
    FromPart(parts[0], Tail(parts, 1, Anchored(pattern)), path, 0);
    assert path[0..] == path;
  }

  /** robotsMatch: whether the path matches, and how long the pattern is without its anchor. */
  method RobotsMatch(pattern: string, path: string) returns (n: int, ok: bool)
    ensures ok <==> Matches(pattern, path)
    ensures n == if ok then |Core(pattern)| else -1
  {
    hide Tail, From, Split;
    if pattern == "" {
      return -1, false;
    }
    var anchored := Anchored(pattern);
    var core := Core(pattern);
    var parts := Split(core);
    Started(pattern, path);
    if |parts| == 1 {
      WholePart(core, path, anchored);
      if !HasPrefix(path, core) {
        return -1, false;
      }
      if anchored && path != core {
        return -1, false;
      }
      return |core|, true;
    }
    var pos := 0;
    var last := parts[|parts| - 1];
    for i := 0 to |parts|
      invariant 0 <= pos <= |path| && (i == 0 ==> pos == 0)
      invariant 0 < i && (i < |parts| || !anchored) ==>
                  (Matches(pattern, path) <==> From(Tail(parts, i, anchored), path, pos))
      invariant i == |parts| && anchored ==>
                  (Matches(pattern, path) <==> last == "" || At(path, last, |path| - |last|))
    {
      var part := parts[i];
      if i == 0 {
        if part != "" {
          if !HasPrefix(path, part) {
            return -1, false;
          }
          pos := pos + |part|;
        }
      } else {
        ghost var ends := i + 1 == |parts| && anchored;
        if ends { TailLast(parts, path, pos); }
        if part == "" {
          if !ends { TailEmpty(parts, i, anchored, path, pos); }
        } else {
          var idx := Find(path, part, pos);
          if idx < 0 {
            TailIs(parts, i, anchored);
            Absent(part, Tail(parts, i + 1, anchored), path, pos);
            return -1, false;
          }
          if !ends { TailFound(parts, i, anchored, path, pos, idx); }
          pos := idx + |part|;
        }
      }
    }
    TailIs(parts, |parts|, anchored);
    if !anchored { StarMatchesAll(path, pos); }
    if anchored && last != "" && !HasSuffix(path, last) {
      return -1, false;
    }
    return |core|, true;
  }

  lemma TailIs(parts: seq<string>, i: nat, anchored: bool)
    requires i <= |parts|
    ensures Tail(parts, i, anchored) ==
            if i == |parts| then (if anchored then "" else "*") else "*" + (parts[i] + Tail(parts, i + 1, anchored))
  {}

  lemma WholePart(core: string, path: string, anchored: bool)
    requires |Split(core)| == 1
    ensures Split(core)[0] == core
    ensures At(path, core, 0) ==> (From(Tail(Split(core), 1, anchored), path, |core|) <==> anchored ==> path == core)
  {
    SplitTail(core, true);
    assert core + "" == core;
    FromEnd(path, |core|);
    if At(path, core, 0) {
      StarMatchesAll(path, |core|);
      assert |core| == |path| ==> path[0..|core|] == path;
    }
  }

  // ---------- the verdict ----------

  /** The longest matching rule decides; of equally long ones, an allow. No match means allowed. */
  ghost predicate Allows(rules: iset<Rule>, path: string) {
    || (forall r :: r in rules ==> !Matches(r.pattern, path))
    || exists r :: r in rules && r.allow && Longest(rules, path, r)
  }

  ghost predicate Longest(rules: iset<Rule>, path: string, r: Rule) {
    r in rules && Matches(r.pattern, path) &&
    forall q :: q in rules && Matches(q.pattern, path) ==> |Core(q.pattern)| <= |Core(r.pattern)|
  }

  ghost function Elements(group: seq<Rule>): iset<Rule> {
    iset r | r in group
  }

  /** robotsAllowed, for a group of rules. The order and repetition of rules do not matter. */
  method RobotsAllowed(group: seq<Rule>, path: string) returns (allowed: bool)
    ensures allowed <==> Allows(Elements(group), path)
  {
    hide Matches;
    var bestLen, bestAllow := -1, true;
    ghost var best := Rule(true, "");
    for i := 0 to |group|
      invariant bestLen >= -1
      invariant bestLen < 0 ==> forall j :: 0 <= j < i ==> !Matches(group[j].pattern, path)
      invariant bestLen >= 0 ==>
                  best in group && Matches(best.pattern, path) && |Core(best.pattern)| == bestLen
                    && best.allow == bestAllow
      invariant forall j :: 0 <= j < i && Matches(group[j].pattern, path) ==>
                  |Core(group[j].pattern)| <= bestLen
                    && (|Core(group[j].pattern)| == bestLen && group[j].allow ==> bestAllow)
    {
      var r := group[i];
      var n, ok := RobotsMatch(r.pattern, path);
      if ok {
        if n > bestLen {
          bestLen, bestAllow, best := n, r.allow, r;
        } else if n == bestLen && r.allow {
          bestAllow, best := true, r;
        }
      }
    }
    allowed := bestLen < 0 || bestAllow;
    assert bestLen >= 0 ==> Longest(Elements(group), path, best);
  }

  // ---------- the anchor and the length ----------

  /** The verdict if the "$" of a pattern counted towards its length. */
  ghost predicate AllowsCounted(rules: iset<Rule>, path: string) {
    || (forall r :: r in rules ==> !Matches(r.pattern, path))
    || exists r :: r in rules && r.allow && LongestCounted(rules, path, r)
  }

  ghost predicate LongestCounted(rules: iset<Rule>, path: string, r: Rule) {
    r in rules && Matches(r.pattern, path) &&
    forall q :: q in rules && Matches(q.pattern, path) ==> |q.pattern| <= |r.pattern|
  }

  /** A longest rule of this kind, with or without an anchor. */
  ghost predicate HasLongest(rules: iset<Rule>, path: string, allow: bool, anchored: bool) {
    exists r :: Longest(rules, path, r) && r.allow == allow && Anchored(r.pattern) == anchored
  }

  /** An anchored rule one character shorter than the longest rules. */
  ghost predicate JustShorter(rules: iset<Rule>, path: string, r: Rule) {
    r in rules && Matches(r.pattern, path) && Anchored(r.pattern)
    && exists q :: Longest(rules, path, q) && |Core(q.pattern)| == |r.pattern|
  }

  /** Not counting the "$" changes the verdict if and only if it makes a tie of an anchored disallow
      and allows without an anchor, or puts an anchored allow behind disallows without an anchor
      that are no longer than its text. */
  lemma AnchorShows(group: seq<Rule>, path: string)
    ensures var rules := Elements(group);
            (Allows(rules, path) <==> !AllowsCounted(rules, path))
            <==> || (HasLongest(rules, path, false, true) && HasLongest(rules, path, true, false)
                     && !HasLongest(rules, path, true, true))
                 || (HasLongest(rules, path, false, false) && !HasLongest(rules, path, false, true)
                     && !HasLongest(rules, path, true, false) && !HasLongest(rules, path, true, true)
                     && exists r :: JustShorter(rules, path, r) && r.allow)
  {
    hide Matches, Anchored, Core;
    var rules := Elements(group);
    if x :| x in rules && Matches(x.pattern, path) {
      var best := SomeLongest(group, path, x);
      forall r ensures LongestCounted(rules, path, r) <==>
                       if exists q :: Longest(rules, path, q) && Anchored(q.pattern)
                       then Longest(rules, path, r) && Anchored(r.pattern)
                       else Longest(rules, path, r) || JustShorter(rules, path, r)
      {
        CountedIs(rules, path, best, r);
      }
    }
  }

  lemma {:induction false} SomeLongest(group: seq<Rule>, path: string, x: Rule) returns (best: Rule)
    requires x in group && Matches(x.pattern, path)
    ensures Longest(Elements(group), path, best)
    decreases |group|
  {
    hide Matches, Core;
    var init, last := group[..|group| - 1], group[|group| - 1];
    assert group == init + [last];
    if y :| y in init && Matches(y.pattern, path) {
      var b := SomeLongest(init, path, y);
      best := if Matches(last.pattern, path) && |Core(last.pattern)| > |Core(b.pattern)| then last else b;
    } else {
      best := last;
    }
  }

  lemma TextLength(pattern: string)
    ensures |pattern| == |Core(pattern)| + if Anchored(pattern) then 1 else 0
  {}

  lemma CountedIs(rules: iset<Rule>, path: string, best: Rule, r: Rule)
    requires Longest(rules, path, best)
    ensures LongestCounted(rules, path, r) <==>
            if exists q :: Longest(rules, path, q) && Anchored(q.pattern)
            then Longest(rules, path, r) && Anchored(r.pattern)
            else Longest(rules, path, r) || JustShorter(rules, path, r)
  {
    hide Matches, Anchored, Core;
    forall q: Rule ensures |q.pattern| == |Core(q.pattern)| + if Anchored(q.pattern) then 1 else 0 {
      TextLength(q.pattern);
    }
  }

  // ---------- groups ----------

  /** A line of the file, once comments and white space are gone. */
  datatype Line = UserAgent(token: string) | RuleLine(allow: bool, value: string) | Ignored

  /** No rule and then another user agent between i and n. */
  ghost predicate Live(lines: seq<Line>, i: int, n: int) {
    forall k, l :: i < k < l < n && 0 <= k < |lines| && l < |lines| ==> !(lines[k].RuleLine? && lines[l].UserAgent?)
  }

  /** A user-agent line naming the token is in force at j. */
  ghost predicate Governed(lines: seq<Line>, token: string, j: int)
    requires 0 <= j <= |lines|
  {
    exists i :: 0 <= i < j && lines[i] == UserAgent(token) && Live(lines, i, j)
  }

  /** The rule of line j, for the token; an empty disallow is none. */
  ghost predicate RuleAt(lines: seq<Line>, token: string, j: int, r: Rule)
    requires 0 <= j < |lines|
  {
    lines[j] == RuleLine(r.allow, r.pattern) && (r.allow || r.pattern != "") && Governed(lines, token, j)
  }

  ghost predicate RuleBefore(lines: seq<Line>, token: string, n: nat, r: Rule)
    requires n <= |lines|
  {
    exists j :: 0 <= j < n && RuleAt(lines, token, j, r)
  }

  ghost function RulesFor(lines: seq<Line>, token: string): iset<Rule> {
    iset r | RuleBefore(lines, token, |lines|, r)
  }

  function GroupOf(groups: map<string, seq<Rule>>, token: string): seq<Rule> {
    if token in groups then groups[token] else []
  }

  /** What the parser knows of the first n lines: who is in force, and whether a rule has followed
      the user agents in force. */
  ghost predicate InForce(lines: seq<Line>, agents: seq<string>, seenRules: bool, n: nat)
    requires n <= |lines|
  {
    && (forall t :: t in agents <==> Governed(lines, t, n))
    && (seenRules ==> agents != [])
    && (forall i :: 0 <= i < n && lines[i].UserAgent? && Live(lines, i, n) ==>
       (seenRules <==> RuleBetween(lines, i, n)))
  }

  ghost predicate RuleBetween(lines: seq<Line>, i: int, n: int) {
    exists k :: i < k < n && 0 <= k < |lines| && lines[k].RuleLine?
  }

  lemma LiveStep(lines: seq<Line>, i: nat, n: nat)
    requires i < n < |lines|
    ensures Live(lines, i, n + 1) <==> Live(lines, i, n) && !(lines[n].UserAgent? && RuleBetween(lines, i, n))
    ensures RuleBetween(lines, i, n + 1) <==> RuleBetween(lines, i, n) || lines[n].RuleLine?
  {}

  lemma LiveHere(lines: seq<Line>, n: nat)
    ensures Live(lines, n, n + 1) && !RuleBetween(lines, n, n + 1)
  {}

  lemma GovernedStep(lines: seq<Line>, t: string, n: nat, seenRules: bool, agents: seq<string>)
    requires n < |lines| && InForce(lines, agents, seenRules, n)
    ensures Governed(lines, t, n + 1) <==>
            if lines[n].UserAgent? then lines[n].token == t || (!seenRules && Governed(lines, t, n))
            else Governed(lines, t, n)
  {
    hide Live, RuleBetween;
    LiveHere(lines, n);
    if i :| 0 <= i < n && lines[i] == UserAgent(t) && Live(lines, i, n) { LiveStep(lines, i, n); }
    if i :| 0 <= i < n + 1 && lines[i] == UserAgent(t) && Live(lines, i, n + 1) && i < n { LiveStep(lines, i, n); }
  }

  lemma InForceStep(lines: seq<Line>, agents: seq<string>, seenRules: bool, n: nat)
    requires n < |lines| && InForce(lines, agents, seenRules, n)
    ensures var l := lines[n];
            InForce(lines, if !l.UserAgent? then agents else if seenRules then [l.token] else agents + [l.token],
              if l.UserAgent? then false else if l.RuleLine? then agents != [] else seenRules, n + 1)
    ensures seenRules ==> agents != []
  {
    var l := lines[n];
    var agents' := if !l.UserAgent? then agents else if seenRules then [l.token] else agents + [l.token];
    var seen' := if l.UserAgent? then false else if l.RuleLine? then agents != [] else seenRules;
    forall t ensures t in agents' <==> Governed(lines, t, n + 1) {
      GovernedStep(lines, t, n, seenRules, agents);
    }
    forall i | 0 <= i < n + 1 && lines[i].UserAgent? && Live(lines, i, n + 1)
      ensures seen' <==> RuleBetween(lines, i, n + 1)
    {
      if i < n {
        LiveStep(lines, i, n);
        assert Governed(lines, lines[i].token, n);
      } else {
        LiveHere(lines, n);
      }
    }
  }

  /** The groups hold the rules of the first n lines; a token without rules has no group. */
  ghost predicate Grouped(lines: seq<Line>, groups: map<string, seq<Rule>>, n: nat)
    requires n <= |lines|
  {
    && (forall t :: t in groups ==> groups[t] != [])
    && forall t, r :: r in GroupOf(groups, t) <==> RuleBefore(lines, t, n, r)
  }

  /** The token governs a rule. */
  ghost predicate Ruled(lines: seq<Line>, token: string) {
    exists r :: RuleBefore(lines, token, |lines|, r)
  }

  /** What a file parses to: a group for each token that governs a rule, with exactly its rules. */
  ghost predicate Parsed(lines: seq<Line>, groups: map<string, seq<Rule>>) {
    forall t :: (t in groups <==> Ruled(lines, t)) && Elements(GroupOf(groups, t)) == RulesFor(lines, t)
  }

  lemma RuleStep(lines: seq<Line>, t: string, n: nat, r: Rule)
    requires n < |lines|
    ensures RuleBefore(lines, t, n + 1, r) <==> RuleBefore(lines, t, n, r) || RuleAt(lines, t, n, r)
  {}

  /** parseRobots: every token gets the rules it governs, and no other token is there. */
  method ParseRobots(lines: seq<Line>) returns (groups: map<string, seq<Rule>>)
    ensures Parsed(lines, groups)
  {
    hide InForce, Governed, RuleBefore, RuleAt;
    groups := map[];
    var agents: seq<string> := [];
    var seenRules := false;
    Nothing(lines);
    for n := 0 to |lines|
      invariant InForce(lines, agents, seenRules, n) && Grouped(lines, groups, n)
    {
      InForceStep(lines, agents, seenRules, n);
      ghost var before := groups;
      match lines[n]
      case Ignored =>
        NoRule(lines, agents, seenRules, groups, n);
      case UserAgent(token) =>
        NoRule(lines, agents, seenRules, groups, n);
        assert [] + [token] == [token];
        if seenRules {
          agents := [];
          seenRules := false;
        }
        agents := agents + [token];
      case RuleLine(allow, value) =>
        if agents == [] || (!allow && value == "") {
          NoRule(lines, agents, seenRules, groups, n);
        } else {
          OneRule(lines, agents, seenRules, n, Rule(allow, value));
          var rule := Rule(allow, value);
          for m := 0 to |agents|
            invariant forall t :: t in groups ==> groups[t] != []
            invariant forall t, r :: r in GroupOf(groups, t) <==>
                      r in GroupOf(before, t) || (r == rule && t in agents[..m])
          {
            var a := agents[m];
            assert agents[..m + 1] == agents[..m] + [a];
            groups := groups[a := GroupOf(groups, a) + [rule]];
          }
          assert agents[..|agents|] == agents;
          forall t, r ensures r in GroupOf(groups, t) <==> RuleBefore(lines, t, n + 1, r) {
            RuleStep(lines, t, n, r);
          }
        }
        if agents != [] {
          seenRules := true;
        }
    }
    GroupedIsParsed(lines, groups);
  }

  lemma GroupedIsParsed(lines: seq<Line>, groups: map<string, seq<Rule>>)
    requires Grouped(lines, groups, |lines|)
    ensures Parsed(lines, groups)
  {
    hide RuleBefore;
    forall t ensures t in groups <==> Ruled(lines, t) {
      if t in groups {
        assert groups[t][0] in GroupOf(groups, t);
      }
    }
  }

  lemma Nothing(lines: seq<Line>)
    ensures InForce(lines, [], false, 0) && Grouped(lines, map[], 0)
  {}

  lemma NoRule(lines: seq<Line>, agents: seq<string>, seenRules: bool, groups: map<string, seq<Rule>>, n: nat)
    requires n < |lines| && InForce(lines, agents, seenRules, n) && Grouped(lines, groups, n)
    requires !lines[n].RuleLine? || agents == [] || (!lines[n].allow && lines[n].value == "")
    ensures Grouped(lines, groups, n + 1)
  {
    forall t, r ensures r in GroupOf(groups, t) <==> RuleBefore(lines, t, n + 1, r) {
      RuleStep(lines, t, n, r);
    }
  }

  lemma OneRule(lines: seq<Line>, agents: seq<string>, seenRules: bool, n: nat, rule: Rule)
    requires n < |lines| && InForce(lines, agents, seenRules, n)
    requires lines[n] == RuleLine(rule.allow, rule.pattern) && (rule.allow || rule.pattern != "")
    ensures forall t, r :: RuleAt(lines, t, n, r) <==> r == rule && t in agents
  {}

  // ---------- choosing a group ----------

  predicate Contains(ua: string, token: string) {
    Find(ua, token, 0) >= 0
  }

  /** A token that occurs in the user agent; "*" and the empty token do not compete. */
  ghost predicate Candidate(groups: map<string, seq<Rule>>, ua: string, token: string) {
    token in groups && token != "*" && token != "" && Contains(ua, token)
  }

  ghost predicate Best(groups: map<string, seq<Rule>>, ua: string, token: string) {
    Candidate(groups, ua, token) && forall t :: Candidate(groups, ua, t) ==> |t| <= |token|
  }

  /** The group that applies, whichever of several longest tokens the iteration meets first. */
  ghost predicate Chosen(groups: map<string, seq<Rule>>, ua: string, group: seq<Rule>) {
    if forall t :: !Candidate(groups, ua, t) then group == GroupOf(groups, "*")
    else exists t :: Best(groups, ua, t) && group == groups[t]
  }

  /** groupFor; the map is iterated in any order. */
  method GroupFor(groups: map<string, seq<Rule>>, ua: string) returns (group: seq<Rule>)
    ensures Chosen(groups, ua, group)
  {
    hide Contains;
    var best := "";
    var todo := groups.Keys;
    while todo != {}
      invariant todo <= groups.Keys
      invariant best == "" || Candidate(groups, ua, best)
      invariant forall t :: Candidate(groups, ua, t) && t !in todo ==> |t| <= |best|
      decreases todo
    {
      var token :| token in todo;
      todo := todo - {token};
      if token != "*" {
        if Contains(ua, token) && |token| > |best| {
          best := token;
        }
      }
    }
    if best != "" {
      assert Best(groups, ua, best);
      return groups[best];
    }
    assert forall t :: Candidate(groups, ua, t) ==> |t| <= 0;
    return GroupOf(groups, "*");
  }

  /** The choice does not depend on the iteration if and only if the longest tokens have equal
      groups. */
  lemma ChoiceDetermined(groups: map<string, seq<Rule>>, ua: string)
    ensures (forall a, b :: Chosen(groups, ua, a) && Chosen(groups, ua, b) ==> a == b)
            <==> (forall t, u :: Best(groups, ua, t) && Best(groups, ua, u) ==> groups[t] == groups[u])
  {
    hide Contains;
    forall t | Best(groups, ua, t) ensures Chosen(groups, ua, groups[t]) {}
  }

  // ---------- the whole file ----------

  /** The token governs rules and occurs in the user agent. */
  ghost predicate Competes(lines: seq<Line>, ua: string, token: string) {
    Ruled(lines, token) && token != "*" && token != "" && Contains(ua, token)
  }

  ghost predicate Wins(lines: seq<Line>, ua: string, token: string) {
    Competes(lines, ua, token) && forall t :: Competes(lines, ua, t) ==> |t| <= |token|
  }

  /** The token whose rules apply to the user agent: a longest one that competes, or else "*". */
  ghost predicate AppliesTo(lines: seq<Line>, ua: string, token: string) {
    if forall t :: !Competes(lines, ua, t) then token == "*" else Wins(lines, ua, token)
  }

  lemma ChosenApplies(lines: seq<Line>, groups: map<string, seq<Rule>>, ua: string, group: seq<Rule>)
    requires Parsed(lines, groups)
    ensures Chosen(groups, ua, group) <==> exists t :: AppliesTo(lines, ua, t) && group == GroupOf(groups, t)
  {
    hide Contains, Ruled, RulesFor, Elements;
    forall t ensures Candidate(groups, ua, t) <==> Competes(lines, ua, t) {}
    forall t ensures Best(groups, ua, t) <==> Wins(lines, ua, t) {}
    if forall t :: !Competes(lines, ua, t) {
      assert AppliesTo(lines, ua, "*");
    }
  }

  /** Whether a path may be fetched under a whole file: parse, choose, match. */
  method Verdict(lines: seq<Line>, ua: string, path: string) returns (allowed: bool)
    ensures exists token :: AppliesTo(lines, ua, token) && (allowed <==> Allows(RulesFor(lines, token), path))
  {
    hide Chosen, Allows, RulesFor, Ruled, AppliesTo, Elements;
    var groups := ParseRobots(lines);
    var group := GroupFor(groups, ua);
    allowed := RobotsAllowed(group, path);
    ChosenApplies(lines, groups, ua, group);
    ghost var token :| AppliesTo(lines, ua, token) && group == GroupOf(groups, token);
    assert Elements(group) == RulesFor(lines, token);
  }

  /** Two verdicts on one path agree, whatever the iteration, if and only if the rules of all
      tokens that may apply agree on the path. */
  lemma VerdictDetermined(lines: seq<Line>, groups: map<string, seq<Rule>>, ua: string, path: string)
    requires Parsed(lines, groups)
    ensures (forall a, b :: Chosen(groups, ua, a) && Chosen(groups, ua, b) ==>
              (Allows(Elements(a), path) <==> Allows(Elements(b), path)))
            <==> (forall t, u :: Wins(lines, ua, t) && Wins(lines, ua, u) ==>
              (Allows(RulesFor(lines, t), path) <==> Allows(RulesFor(lines, u), path)))
  {
    hide Chosen, Allows, RulesFor, Ruled, Elements, Competes;
    forall a | Chosen(groups, ua, a)
      ensures exists t :: AppliesTo(lines, ua, t) && a == GroupOf(groups, t) && Elements(a) == RulesFor(lines, t)
    {
      ChosenApplies(lines, groups, ua, a);
      var t :| AppliesTo(lines, ua, t) && a == GroupOf(groups, t);
      assert Elements(GroupOf(groups, t)) == RulesFor(lines, t);
    }
    forall t | Wins(lines, ua, t)
      ensures Chosen(groups, ua, GroupOf(groups, t)) && Elements(GroupOf(groups, t)) == RulesFor(lines, t)
    {
      assert AppliesTo(lines, ua, t);
      ChosenApplies(lines, groups, ua, GroupOf(groups, t));
    }
  }

  // ---------- against the standard ----------

  /** A user-agent line names the token. */
  ghost predicate Named(lines: seq<Line>, token: string) {
    UserAgent(token) in lines
  }

  /** A longest token, of those any user-agent line names, that occurs in the user agent. Its
      rules are the ones section 2.2.1 of RFC 9309 asks for, even if there are none. */
  ghost predicate Matching(lines: seq<Line>, ua: string, token: string) {
    && Named(lines, token) && token != "*" && token != "" && Contains(ua, token)
    && forall t :: Named(lines, t) && t != "*" && t != "" && Contains(ua, t) ==> |t| <= |token|
  }

  lemma RuledIsNamed(lines: seq<Line>, token: string)
    requires Ruled(lines, token)
    ensures Named(lines, token)
  {}

  /** Its rules are the ones that apply if and only if it has any: a group of empty disallows is
      forgotten, and although by itself it allows everything, another group takes its place. */
  lemma EmptyGroupForgotten(lines: seq<Line>, ua: string, token: string)
    requires Matching(lines, ua, token)
    ensures AppliesTo(lines, ua, token) <==> Ruled(lines, token)
    ensures !Ruled(lines, token) ==> forall path :: Allows(RulesFor(lines, token), path)
  {
    forall t | Competes(lines, ua, t) ensures |t| <= |token| { RuledIsNamed(lines, t); }
    hide Contains, RuleBefore;
    if Ruled(lines, token) {
      assert Competes(lines, ua, token);
    }
  }

  /** With one matching token, the verdict on a path is the standard's if and only if the token
      has rules, or what applies in its place allows the path. */
  lemma StandardVerdict(lines: seq<Line>, ua: string, token: string, used: string, path: string)
    requires Matching(lines, ua, token) && forall t :: Matching(lines, ua, t) ==> t == token
    requires AppliesTo(lines, ua, used)
    ensures (Allows(RulesFor(lines, used), path) <==> Allows(RulesFor(lines, token), path))
            <==> Ruled(lines, token) || Allows(RulesFor(lines, used), path)
  {
    EmptyGroupForgotten(lines, ua, token);
    hide Contains, RuleBefore, Allows, RulesFor;
    if Ruled(lines, token) {
      assert Wins(lines, ua, token);
      RuledIsNamed(lines, used);
      assert Matching(lines, ua, used);
    }
  }

  /** "User-agent: foo" with an empty disallow, then everything forbidden to everyone: whatever
      foo is, it is forbidden too. */
  lemma ForbiddenToFoo(foo: string, ua: string, path: string)
    requires foo != "" && foo != "*" && Contains(ua, foo) && path != "" && path[0] == '/'
    ensures var lines := [UserAgent(foo), RuleLine(false, ""), UserAgent("*"), RuleLine(false, "/")];
            && Matching(lines, ua, foo) && Allows(RulesFor(lines, foo), path)
            && AppliesTo(lines, ua, "*") && !Allows(RulesFor(lines, "*"), path)
  {
    var lines := [UserAgent(foo), RuleLine(false, ""), UserAgent("*"), RuleLine(false, "/")];
    forall t, r ensures RuleBefore(lines, t, 4, r) <==> t == "*" && r == Rule(false, "/") { FourLines(foo, t, r); }
    hide RuleBefore, Contains;
    assert UserAgent(foo) in lines by { assert lines[0] == UserAgent(foo); }
    assert RulesFor(lines, "*") == iset{Rule(false, "/")};
    assert Matches("/", path) by {
      StarMatchesAll(path, 1);
      assert path[..1] == "/" && "/" + "*" == "/*" && path[0..] == path;
      FromPart("/", "*", path, 0);
    }
    hide Matches, RulesFor;
    assert Longest(RulesFor(lines, "*"), path, Rule(false, "/"));
  }

  lemma FourLines(foo: string, t: string, r: Rule)
    requires foo != "*"
    ensures var lines := [UserAgent(foo), RuleLine(false, ""), UserAgent("*"), RuleLine(false, "/")];
            RuleBefore(lines, t, 4, r) <==> t == "*" && r == Rule(false, "/")
  {
    var lines := [UserAgent(foo), RuleLine(false, ""), UserAgent("*"), RuleLine(false, "/")];
    assert lines[1].RuleLine? && lines[2].UserAgent?;
    assert !Live(lines, 0, 3);
    assert Governed(lines, t, 3) <==> t == "*" by {
      assert Live(lines, 2, 3);
      assert lines[2] == UserAgent("*");
    }
    assert RuleAt(lines, t, 3, r) <==> t == "*" && r == Rule(false, "/");
  }
}
