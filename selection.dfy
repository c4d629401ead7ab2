/** The selection resolver and upgrade invoker: each descriptor the user chose is cut
    back to a module path, and every candidate with that path is upgraded with
    `go get path@version`, one after the other. */
module Selection {
  import opened Records
  import opened Filter

  /** The text `s` has the separator " v" starting at position `k`. */
  predicate SeparatorAt(s: string, k: int) {
    0 <= k && k + 1 < |s| && s[k] == ' ' && s[k + 1] == 'v'
  }

  predicate ContainsSeparator(s: string) {
    exists k :: 0 <= k < |s| && SeparatorAt(s, k)
  }

  /** The text before the first " v", or the whole text when it has none: the first
      piece of splitting `text` at " v". */
  function PackagePath(text: string): (p: string)
    ensures |p| <= |text|
  {
    if text == [] then ""
    else if SeparatorAt(text, 0) then ""
    else [text[0]] + PackagePath(text[1..])
  }

  /** The package path begins the text, holds no separator, and is either the whole
      text or stops right where a separator begins. */
  lemma {:induction false} PackagePathSplit(text: string)
    ensures PackagePath(text) <= text
    ensures !ContainsSeparator(PackagePath(text))
    ensures PackagePath(text) == text || SeparatorAt(text, |PackagePath(text)|)
  {
    if text != [] && !SeparatorAt(text, 0) {
      var rest := PackagePath(text[1..]);
      PackagePathSplit(text[1..]);
      var p := [text[0]] + rest;
      forall k | SeparatorAt(p, k) ensures SeparatorAt(rest, k - 1) {
      }
    }
  }

  /** The separator occurs in a concatenation exactly when it occurs in one of the two
      parts or straddles the seam. */
  lemma ContainsSeparatorConcat(a: string, b: string)
    ensures ContainsSeparator(a + b) <==>
      ContainsSeparator(a) || ContainsSeparator(b) ||
      (a != [] && b != [] && a[|a| - 1] == ' ' && b[0] == 'v')
  {
    var s := a + b;
    if ContainsSeparator(s) {
      var k :| 0 <= k < |s| && SeparatorAt(s, k);
      if k + 1 < |a| {
        assert s[k] == a[k] && s[k + 1] == a[k + 1];
        assert SeparatorAt(a, k);
      } else if k >= |a| {
        assert s[k] == b[k - |a|] && s[k + 1] == b[k + 1 - |a|];
        assert SeparatorAt(b, k - |a|);
      } else {
        assert s[k] == a[|a| - 1] && s[k + 1] == b[0];
      }
    }
    if ContainsSeparator(a) {
      var k :| 0 <= k < |a| && SeparatorAt(a, k);
      assert s[k] == a[k] && s[k + 1] == a[k + 1];
      assert SeparatorAt(s, k);
    }
    if ContainsSeparator(b) {
      var k :| 0 <= k < |b| && SeparatorAt(b, k);
      assert s[k + |a|] == b[k] && s[k + 1 + |a|] == b[k + 1];
      assert SeparatorAt(s, k + |a|);
    }
    if a != [] && b != [] && a[|a| - 1] == ' ' && b[0] == 'v' {
      assert s[|a| - 1] == a[|a| - 1] && s[|a|] == b[0];
      assert SeparatorAt(s, |a| - 1);
    }
  }

  /** A prefix long enough to hold a separator of the whole text holds it too. */
  lemma SeparatorSurvivesPrefix(p: string, text: string, k: nat)
    requires p <= text && SeparatorAt(text, k)
    ensures k + 1 < |p| ==> SeparatorAt(p, k)
  {
    if k + 1 < |p| {
      assert p[k] == text[k] && p[k + 1] == text[k + 1];
    }
  }

  /** A text without the separator is its own package path. */
  lemma PackagePathOfPlain(text: string)
    requires !ContainsSeparator(text)
    ensures PackagePath(text) == text
  {
    PackagePathSplit(text);
  }

  /** The candidates whose descriptor resolves back to their own path: a module path
      without " v" and a current version with the leading 'v' Go versions carry. */
  predicate Resolvable(o: Output) {
    !ContainsSeparator(o.path) && o.version != [] && o.version[0] == 'v'
  }

  /** The package path of a text stops at its first separator. */
  lemma PackagePathAtFirstSeparator(text: string, n: nat)
    requires SeparatorAt(text, n)
    requires forall k :: 0 <= k < n ==> !SeparatorAt(text, k)
    ensures PackagePath(text) == text[..n]
  {
    var p := PackagePath(text);
    PackagePathSplit(text);
    assert n <= |p|;
    SeparatorSurvivesPrefix(p, text, n);
    assert |p| != n + 1;
  }

  /** No separator starts inside a separator-free prefix that is followed by a space. */
  lemma NoSeparatorBeforeSpace(path: string, rest: string)
    requires !ContainsSeparator(path) && rest != [] && rest[0] == ' '
    ensures forall k :: 0 <= k < |path| ==> !SeparatorAt(path + rest, k)
  {
    var d := path + rest;
    forall k | 0 <= k < |path| ensures !SeparatorAt(d, k) {
      if k + 1 < |path| {
        assert d[k] == path[k] && d[k + 1] == path[k + 1];
        assert !SeparatorAt(path, k);
      } else {
        assert d[k + 1] == rest[0];
      }
    }
  }

  /** Round trip: the resolver recovers the module path from the descriptor. */
  lemma DescriptorRoundTrip(o: Output)
    requires Resolvable(o)
    ensures PackagePath(Descriptor(o)) == o.path
  {
    var rest := " " + o.version + " -> " + o.update.version;
    var d := o.path + rest;
    assert d == Descriptor(o);
    NoSeparatorBeforeSpace(o.path, rest);
    assert d[|o.path|] == ' ' && d[|o.path| + 1] == 'v';
    PackagePathAtFirstSeparator(d, |o.path|);
    assert d[..|o.path|] == o.path;
  }

  /** For a module path without " v", the resolver gives back the path exactly when
      the current version starts with 'v'. */
  lemma DescriptorRoundTripExactly(o: Output)
    requires !ContainsSeparator(o.path)
    ensures PackagePath(Descriptor(o)) == o.path <==> o.version != [] && o.version[0] == 'v'
  {
    if o.version != [] && o.version[0] == 'v' {
      DescriptorRoundTrip(o);
    } else {
      var d := Descriptor(o);
      PackagePathSplit(d);
      assert d[|o.path|] == ' ';
      assert d[|o.path| + 1] == (if o.version == [] then ' ' else o.version[0]);
    }
  }

  /** Distinct resolvable candidates with distinct paths are offered under distinct
      descriptors. */
  lemma DescriptorsDistinguishPaths(a: Output, b: Output)
    requires Resolvable(a) && Resolvable(b) && a.path != b.path
    ensures Descriptor(a) != Descriptor(b)
  {
    DescriptorRoundTrip(a);
    DescriptorRoundTrip(b);
  }

  /** When neither version starts with 'v' and no field holds " v", the descriptor has no
      separator: the resolver takes the whole line as the path, which is never the
      candidate's own path. */
  lemma DescriptorWithoutLeadingV(o: Output)
    requires !ContainsSeparator(o.path) && !ContainsSeparator(o.version) &&
      !ContainsSeparator(o.update.version)
    requires o.version == [] || o.version[0] != 'v'
    requires o.update.version == [] || o.update.version[0] != 'v'
    ensures PackagePath(Descriptor(o)) == Descriptor(o)
    ensures PackagePath(Descriptor(o)) != o.path
  {
    var a := o.path + " ";
    ContainsSeparatorConcat(o.path, " ");
    assert !SeparatorAt(" ", 0);
    var b := a + o.version;
    ContainsSeparatorConcat(a, o.version);
    var c := b + " -> ";
    ContainsSeparatorConcat(b, " -> ");
    assert !ContainsSeparator(" -> ") by {
      forall k ensures !SeparatorAt(" -> ", k) { }
    }
    if o.version == [] {
      assert b == a;
    }
    var d := c + o.update.version;
    ContainsSeparatorConcat(c, o.update.version);
    assert d == Descriptor(o);
    PackagePathOfPlain(d);
  }

  /** The `go get` address of a candidate. */
  function Address(u: Output): (a: string) {
    u.path + "@" + u.update.version
  }

  /** The progress line printed before each upgrade. */
  function Progress(u: Output): (line: Line) {
    Updating(u.path, u.update.version)
  }

  /** The `go get` addresses of `us`, in order. */
  function Addresses(us: seq<Output>): (r: seq<string>)
    ensures |r| == |us|
  {
    if us == [] then [] else Addresses(us[..|us| - 1]) + [Address(us[|us| - 1])]
  }

  /** The progress lines announcing the upgrades of `us`, in order. */
  function ProgressLines(us: seq<Output>): (r: seq<Line>)
    ensures |r| == |us|
  {
    if us == [] then [] else ProgressLines(us[..|us| - 1]) + [Progress(us[|us| - 1])]
  }

  /** The candidates whose path is `path`, in candidate order, duplicates kept. */
  function Matches(updates: seq<Output>, path: string): (r: seq<Output>)
    ensures |r| <= |updates|
  {
    if updates == [] then []
    else
      var last := |updates| - 1;
      Matches(updates[..last], path) + (if updates[last].path == path then [updates[last]] else [])
  }

  /** Every candidate the chosen lines resolve to, in the order they are upgraded:
      selection by selection, and within one selection in candidate order. */
  function Targets(updates: seq<Output>, chosen: seq<string>): (r: seq<Output>)
  {
    if chosen == [] then []
    else Matches(updates, PackagePath(chosen[0])) + Targets(updates, chosen[1..])
  }

  /** A line's plan holds exactly the candidates with its path. */
  lemma {:induction false} MatchesMembership(updates: seq<Output>, path: string)
    ensures forall u :: u in Matches(updates, path) <==> u in updates && u.path == path
  {
    if updates != [] {
      var last := |updates| - 1;
      MatchesMembership(updates[..last], path);
      assert updates == updates[..last] + [updates[last]];
    }
  }

  /** The whole plan holds exactly the candidates whose path is the package path of
      some chosen line. */
  lemma {:induction false} TargetsMembership(updates: seq<Output>, chosen: seq<string>)
    ensures forall u :: u in Targets(updates, chosen) <==>
      u in updates && exists t :: t in chosen && u.path == PackagePath(t)
  {
    if chosen != [] {
      var path := PackagePath(chosen[0]);
      MatchesMembership(updates, path);
      TargetsMembership(updates, chosen[1..]);
      forall u ensures u in Targets(updates, chosen) <==>
        u in updates && exists t :: t in chosen && u.path == PackagePath(t)
      {
        if u in updates && u.path == path {
          assert chosen[0] in chosen;
        }
        if u in Targets(updates, chosen[1..]) {
          var t :| t in chosen[1..] && u.path == PackagePath(t);
          assert t in chosen;
        }
        if u in updates && exists t :: t in chosen && u.path == PackagePath(t) {
          var t :| t in chosen && u.path == PackagePath(t);
          if t != chosen[0] {
            assert t in chosen[1..];
          }
        }
      }
    }
  }

  lemma {:induction false} MatchesAppend(a: seq<Output>, b: seq<Output>, path: string)
    ensures Matches(a + b, path) == Matches(a, path) + Matches(b, path)
  {
    if b == [] {
      assert a + b == a;
    } else {
      var front := b[..|b| - 1];
      assert (a + b)[..|a + b| - 1] == a + front;
      MatchesAppend(a, front, path);
    }
  }

  lemma {:induction false} TargetsAppend(updates: seq<Output>, a: seq<string>, b: seq<string>)
    ensures Targets(updates, a + b) == Targets(updates, a) + Targets(updates, b)
  {
    if a == [] {
      assert a + b == b;
    } else {
      assert (a + b)[1..] == a[1..] + b;
      TargetsAppend(updates, a[1..], b);
    }
  }

  /** What the upgrades dispatched so far are: the plans of the chosen lines before
      position `i` in full, then the first `n` candidates that match line `i`. This is
      always a prefix of the whole plan. */
  lemma PlanPrefix(updates: seq<Output>, chosen: seq<string>, i: nat, n: nat)
    requires i < |chosen| && n <= |Matches(updates, PackagePath(chosen[i]))|
    ensures Targets(updates, chosen[..i]) + Matches(updates, PackagePath(chosen[i]))[..n]
      <= Targets(updates, chosen)
  {
    assert chosen == chosen[..i] + chosen[i..];
    TargetsAppend(updates, chosen[..i], chosen[i..]);
    assert chosen[i..][1..] == chosen[i + 1..];
  }

  /** Choosing a resolvable candidate's descriptor upgrades every candidate with the
      same path, in candidate order, and so at least that candidate. */
  lemma ChoosingDescriptorUpgrades(updates: seq<Output>, i: nat)
    requires i < |updates| && Resolvable(updates[i])
    ensures Targets(updates, [Descriptor(updates[i])]) == Matches(updates, updates[i].path)
    ensures updates[i] in Targets(updates, [Descriptor(updates[i])])
  {
    var d := Descriptor(updates[i]);
    DescriptorRoundTrip(updates[i]);
    assert Targets(updates, [d]) == Matches(updates, PackagePath(d)) + Targets(updates, []);
    MatchesMembership(updates, updates[i].path);
  }

  /** Choosing every offered descriptor upgrades every resolvable candidate, whatever
      the other candidates are. */
  lemma ChoosingEveryDescriptorUpgradesAll(updates: seq<Output>, questions: seq<string>)
    requires Lockstep(updates, questions)
    ensures forall u :: u in updates && Resolvable(u) ==> u in Targets(updates, questions)
  {
    TargetsMembership(updates, questions);
    forall u | u in updates && Resolvable(u) ensures u in Targets(updates, questions) {
      var i :| 0 <= i < |updates| && updates[i] == u;
      DescriptorRoundTrip(u);
      assert questions[i] in questions && u.path == PackagePath(questions[i]);
    }
  }

  /** Choosing "z 1.0 -> 1.1", whose versions lack the leading 'v', upgrades nothing. */
  lemma ChoosingUntaggedDescriptor()
    ensures var z := Output("z", "1.0", "", false, false, Update("", "1.1", "t"));
      Targets([z], [Descriptor(z)]) == []
  {
    var z := Output("z", "1.0", "", false, false, Update("", "1.1", "t"));
    assert !ContainsSeparator("z") && !ContainsSeparator("1.0") && !ContainsSeparator("1.1");
    DescriptorWithoutLeadingV(z);
    UnmatchedChoiceUpgradesNothing([z], Descriptor(z));
  }

  /** Choosing "z v1.0 -> v1.1" upgrades exactly `z@v1.1`. */
  lemma ChoosingTaggedDescriptor()
    ensures var z := Output("z", "v1.0", "", false, false, Update("", "v1.1", "t"));
      Addresses(Targets([z], [Descriptor(z)])) == ["z@v1.1"]
  {
    var z := Output("z", "v1.0", "", false, false, Update("", "v1.1", "t"));
    assert !ContainsSeparator("z");
    ChoosingDescriptorUpgrades([z], 0);
    assert [z][1..] == [] && [z][..0] == [];
    assert Matches([z], "z") == [z];
    assert Addresses([z]) == [Address(z)];
    assert Address(z) == "z@v1.1";
  }

  /** A chosen line whose path matches no candidate upgrades nothing. */
  lemma {:induction false} MatchesNone(updates: seq<Output>, path: string)
    requires forall u :: u in updates ==> u.path != path
    ensures Matches(updates, path) == []
  {
    if updates != [] {
      var last := |updates| - 1;
      assert updates[last] in updates;
      MatchesNone(updates[..last], path);
    }
  }

  lemma UnmatchedChoiceUpgradesNothing(updates: seq<Output>, text: string)
    requires forall u :: u in updates ==> u.path != PackagePath(text)
    ensures Targets(updates, [text]) == []
  {
    MatchesNone(updates, PackagePath(text));
    assert [text][1..] == [];
  }

  lemma {:induction false} AddressesAppend(a: seq<Output>, b: seq<Output>)
    ensures Addresses(a + b) == Addresses(a) + Addresses(b)
  {
    if b != [] {
      var c := b[..|b| - 1];
      assert (a + b)[..|a + b| - 1] == a + c;
      assert c + [b[|b| - 1]] == b;
      AddressesAppend(a, c);
    } else {
      assert a + b == a;
    }
  }

  lemma {:induction false} ProgressLinesAppend(a: seq<Output>, b: seq<Output>)
    ensures ProgressLines(a + b) == ProgressLines(a) + ProgressLines(b)
  {
    if b != [] {
      var c := b[..|b| - 1];
      assert (a + b)[..|a + b| - 1] == a + c;
      assert c + [b[|b| - 1]] == b;
      ProgressLinesAppend(a, c);
    } else {
      assert a + b == a;
    }
  }

  lemma MatchesStep(updates: seq<Output>, j: nat, path: string)
    requires j < |updates|
    ensures Matches(updates[..j + 1], path) ==
      Matches(updates[..j], path) + (if updates[j].path == path then [updates[j]] else [])
  {
    assert updates[..j + 1][..j] == updates[..j];
  }

  /** The matches among the first `j` candidates begin the matches among all of them. */
  lemma StoppedAt(updates: seq<Output>, j: nat, path: string, done: seq<Output>)
    requires j <= |updates| && done == Matches(updates[..j], path)
    ensures var m := Matches(updates, path);
      |done| <= |m| && m[..|done|] == done
  {
    assert updates == updates[..j] + updates[j..];
    MatchesAppend(updates[..j], updates[j..], path);
  }

  lemma AddressesPrefix(a: seq<Output>, b: seq<Output>)
    requires a <= b
    ensures Addresses(a) <= Addresses(b)
  {
    assert b == a + b[|a|..];
    AddressesAppend(a, b[|a|..]);
  }

  /** The user's answer to the multi-select prompt. */
  datatype Answer = Chosen(texts: seq<string>) | Interrupted(reason: string)

  /** The outcome of the interactive run: the progress lines printed, the addresses
      handed to `go get` (the failing one included), and the fatal condition if any.
      `failing` is the set of addresses whose `go get` exits with an error. The upgrades
      run along the plan of the chosen lines and stop after the first failing address. */
  predicate Dispatched(updates: seq<Output>, answer: Answer, failing: set<string>,
                       progress: seq<Line>, issued: seq<string>, fatal: Option<Fatal>)
  {
    match answer
    case Interrupted(reason) =>
      progress == [] && issued == [] && fatal == Some(PromptFailed(reason))
    case Chosen(texts) =>
      var plan := Targets(updates, texts);
      var n := |issued|;
      n <= |plan| &&
      issued == Addresses(plan[..n]) && progress == ProgressLines(plan[..n]) &&
      (fatal == None <==> forall a :: a in Addresses(plan) ==> a !in failing) &&
      (fatal == None ==> n == |plan|) &&
      (fatal != None ==>
        n > 0 && fatal == Some(UpgradeFailed(issued[n - 1])) && issued[n - 1] in failing &&
        forall a :: a in issued[..n - 1] ==> a !in failing)
  }

  /** The upgrades for one chosen line: every candidate whose path is `packagePath`, in
      candidate order, each announced by a progress line and handed to `go get`; the
      first failing address stops the loop and is reported by `failed`. */
  method UpgradeMatching(updates: seq<Output>, packagePath: string, failing: set<string>)
    returns (progress: seq<Line>, issued: seq<string>, failed: bool)
    ensures var m := Matches(updates, packagePath);
      var n := |issued|;
      n <= |m| && issued == Addresses(m[..n]) && progress == ProgressLines(m[..n]) &&
      (!failed ==> n == |m| && forall a :: a in issued ==> a !in failing) &&
      (failed ==> n > 0 && issued[n - 1] in failing && forall a :: a in issued[..n - 1] ==> a !in failing)
  {
    progress, issued, failed := [], [], false;
    ghost var done: seq<Output> := [];
    for j := 0 to |updates|
      invariant done == Matches(updates[..j], packagePath)
      invariant issued == Addresses(done) && progress == ProgressLines(done)
      invariant forall a :: a in issued ==> a !in failing
    {
      var update := updates[j];
      MatchesStep(updates, j, packagePath);
      if update.path == packagePath {
        var address := Address(update);
        progress := progress + [Progress(update)];
        issued := issued + [address];
        done := done + [update];
        if address in failing {
          StoppedAt(updates, j + 1, packagePath, done);
          failed := true;
          return;
        }
      }
    }
    assert updates[..|updates|] == updates;
    StoppedAt(updates, |updates|, packagePath, done);
  }

  /** Offers the descriptors, then upgrades, for each chosen line in turn, every
      candidate whose path is the line's package path; the first failing `go get`
      aborts the rest. */
  method Interactivity(updates: seq<Output>, questions: seq<string>, answer: Answer, failing: set<string>)
    returns (offered: seq<string>, progress: seq<Line>, issued: seq<string>, fatal: Option<Fatal>)
    ensures offered == questions
    ensures Dispatched(updates, answer, failing, progress, issued, fatal)
  {
    offered := questions;
    progress, issued, fatal := [], [], None;
    if answer.Interrupted? {
      fatal := Some(PromptFailed(answer.reason));
      return;
    }
    var texts := answer.texts;
    ghost var done: seq<Output> := [];
    for i := 0 to |texts|
      invariant done == Targets(updates, texts[..i])
      invariant issued == Addresses(done) && progress == ProgressLines(done)
      invariant forall a :: a in issued ==> a !in failing
    {
      var packagePath := PackagePath(texts[i]);
      var lines, addresses, failed := UpgradeMatching(updates, packagePath, failing);
      if failed {
        StoppedRun(done, Matches(updates, packagePath), |addresses|, addresses, lines, failing);
        progress := progress + lines;
        issued := issued + addresses;
        fatal := Some(UpgradeFailed(addresses[|addresses| - 1]));
        AbortedAtLine(updates, texts, i, |addresses|, failing, progress, issued, fatal);
        return;
      }
      assert Matches(updates, packagePath)[..|addresses|] == Matches(updates, packagePath);
      CompletedLine(updates, texts, i);
      AddressesAppend(done, Matches(updates, packagePath));
      ProgressLinesAppend(done, Matches(updates, packagePath));
      progress := progress + lines;
      issued := issued + addresses;
      done := done + Matches(updates, packagePath);
    }
    assert texts[..|texts|] == texts;
    assert Targets(updates, texts)[..|issued|] == done;
  }

  /** A chosen line whose upgrades all went through extends the run by that line's
      whole plan. */
  lemma CompletedLine(updates: seq<Output>, texts: seq<string>, i: nat)
    requires i < |texts|
    ensures Targets(updates, texts[..i]) + Matches(updates, PackagePath(texts[i])) ==
      Targets(updates, texts[..i + 1])
  {
    assert texts[..i + 1] == texts[..i] + [texts[i]];
    TargetsAppend(updates, texts[..i], [texts[i]]);
    assert [texts[i]][1..] == [];
  }

  /** Upgrades that ran through `done` and then stopped after `n` candidates of `m`:
      the addresses and progress lines are those of `done` followed by those of the
      `n` candidates, the last address issued is that of candidate `n - 1`, and every
      address before it went through. */
  lemma StoppedRun(done: seq<Output>, m: seq<Output>, n: nat, addresses: seq<string>,
                   lines: seq<Line>, failing: set<string>)
    requires 0 < n <= |m| && addresses == Addresses(m[..n]) && lines == ProgressLines(m[..n])
    requires forall a :: a in Addresses(done) ==> a !in failing
    requires forall a :: a in addresses[..n - 1] ==> a !in failing
    ensures var run := done + m[..n];
      Addresses(run) == Addresses(done) + addresses &&
      ProgressLines(run) == ProgressLines(done) + lines &&
      Address(run[|run| - 1]) == addresses[n - 1] &&
      forall a :: a in Addresses(run[..|run| - 1]) ==> a !in failing
  {
    AddressesAppend(done, m[..n]);
    ProgressLinesAppend(done, m[..n]);
    LastAddress(m, n);
    AddressesAppend(done, m[..n - 1]);
    var run := done + m[..n];
    assert run[..|run| - 1] == done + m[..n - 1];
  }

  /** A chosen line whose upgrades stopped after `n` of its matches, at a failing
      address, ends the run there. */
  lemma AbortedAtLine(updates: seq<Output>, texts: seq<string>, i: nat, n: nat, failing: set<string>,
                      progress: seq<Line>, issued: seq<string>, fatal: Option<Fatal>)
    requires i < |texts| && 0 < n <= |Matches(updates, PackagePath(texts[i]))|
    requires var run := Targets(updates, texts[..i]) + Matches(updates, PackagePath(texts[i]))[..n];
      progress == ProgressLines(run) && issued == Addresses(run) &&
      fatal == Some(UpgradeFailed(Address(run[|run| - 1]))) &&
      Address(run[|run| - 1]) in failing &&
      forall a :: a in Addresses(run[..|run| - 1]) ==> a !in failing
    ensures Dispatched(updates, Chosen(texts), failing, progress, issued, fatal)
  {
    PlanPrefix(updates, texts, i, n);
    AbortedRun(updates, texts, failing,
               Targets(updates, texts[..i]) + Matches(updates, PackagePath(texts[i]))[..n],
               progress, issued, fatal);
  }

  /** The addresses of the first `n` candidates are those of the first `n - 1`, then
      the address of candidate `n - 1`. */
  lemma LastAddress(m: seq<Output>, n: nat)
    requires 0 < n <= |m|
    ensures Addresses(m[..n]) == Addresses(m[..n - 1]) + [Address(m[n - 1])]
  {
    assert m[..n][..n - 1] == m[..n - 1];
  }

  /** Stopping at the first failing address of a prefix of the plan is an aborted run. */
  lemma AbortedRun(updates: seq<Output>, texts: seq<string>, failing: set<string>, run: seq<Output>,
                   progress: seq<Line>, issued: seq<string>, fatal: Option<Fatal>)
    requires run <= Targets(updates, texts) && run != []
    requires progress == ProgressLines(run) && issued == Addresses(run)
    requires fatal == Some(UpgradeFailed(Address(run[|run| - 1])))
    requires Address(run[|run| - 1]) in failing
    requires forall a :: a in Addresses(run[..|run| - 1]) ==> a !in failing
    ensures Dispatched(updates, Chosen(texts), failing, progress, issued, fatal)
  {
    var plan := Targets(updates, texts);
    assert plan[..|run|] == run;
    AddressesPrefix(run, plan);
    assert Addresses(run)[|run| - 1] in Addresses(plan);
  }
}
