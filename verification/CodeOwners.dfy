/** CODEOWNERS rules once parsed (crates/jeryu-core/src/branch_protection/codeowners.rs). */
module CodeOwners {

  datatype OwnerRule = OwnerRule(pattern: string, owners: seq<string>)

  function TrimStart(s: string, c: char): string {
    if s != "" && s[0] == c then TrimStart(s[1..], c) else s
  }

  function TrimEnd(s: string, c: char): string {
    if s != "" && s[|s| - 1] == c then TrimEnd(s[..|s| - 1], c) else s
  }

  predicate EndsWith(s: string, suffix: string) {
    |suffix| <= |s| && s[|s| - |suffix|..] == suffix
  }

  predicate UnderDirectory(dir: string, path: string) {
    path == dir || dir + "/" <= path
  }

  predicate GlobMatch(pattern: string, path0: string) {
    var path := TrimStart(path0, '/');
    if pattern == "*" then true
    else if "*" <= pattern then EndsWith(path, pattern[1..])
    else
      var pat := TrimStart(pattern, '/');
      if EndsWith(pat, "/**") then UnderDirectory(TrimEnd(pat[..|pat| - 3], '/'), path)
      else if EndsWith(pat, "/") then UnderDirectory(pat[..|pat| - 1], path)
      else UnderDirectory(pat, path)
  }

  /** The owners of the last rule that matches; none when no rule does. */
  function OwnersFor(rules: seq<OwnerRule>, path: string): seq<string> {
    if rules == [] then []
    else
      var last := rules[|rules| - 1];
      if GlobMatch(last.pattern, path) then last.owners else OwnersFor(rules[..|rules| - 1], path)
  }

  /** The last matching rule decides alone; a path no rule matches has no owners. */
  lemma {:induction false} LastMatchDecides(rules: seq<OwnerRule>, path: string, k: nat)
    requires k < |rules| && GlobMatch(rules[k].pattern, path)
    requires forall j | k < j < |rules| :: !GlobMatch(rules[j].pattern, path)
    ensures OwnersFor(rules, path) == rules[k].owners
    decreases |rules|
  {
    hide GlobMatch;
    if k < |rules| - 1 {
      LastMatchDecides(rules[..|rules| - 1], path, k);
    }
  }

  lemma {:induction false} OwnedOnlyByAMatch(rules: seq<OwnerRule>, path: string)
    ensures OwnersFor(rules, path) != [] ==>
      exists k :: 0 <= k < |rules| && GlobMatch(rules[k].pattern, path) && OwnersFor(rules, path) == rules[k].owners
    decreases |rules|
  {
    hide GlobMatch;
    if rules != [] && !GlobMatch(rules[|rules| - 1].pattern, path) {
      OwnedOnlyByAMatch(rules[..|rules| - 1], path);
    }
  }

  predicate PlainDirectory(dir: string) {
    dir != "" && dir[0] != '*' && dir[0] != '/' && dir[|dir| - 1] != '/' && !EndsWith(dir, "/**")
  }

  lemma BareDirectory(dir: string, path: string)
    requires PlainDirectory(dir)
    ensures GlobMatch(dir, path) <==> UnderDirectory(dir, TrimStart(path, '/'))
  {
    assert TrimStart(dir, '/') == dir;
    assert dir[|dir| - 1..][0] != '/';
    hide TrimStart, UnderDirectory;
  }

  lemma RootedDirectory(dir: string, path: string)
    requires PlainDirectory(dir)
    ensures GlobMatch("/" + dir, path) <==> GlobMatch(dir, path)
  {
    var rooted := "/" + dir;
    assert rooted[0] == '/' && rooted[1..] == dir && TrimStart(rooted, '/') == TrimStart(dir, '/');
    hide TrimStart, UnderDirectory, EndsWith;
  }

  lemma SlashedDirectory(dir: string, path: string)
    requires PlainDirectory(dir)
    ensures GlobMatch(dir + "/", path) <==> UnderDirectory(dir, TrimStart(path, '/'))
  {
    var slash := dir + "/";
    assert slash[0] == dir[0] && TrimStart(slash, '/') == slash;
    assert slash[|slash| - 1..] == "/" && slash[..|slash| - 1] == dir;
    assert |slash| >= 3 ==> slash[|slash| - 3..][2] == '/';
    hide TrimStart, UnderDirectory;
  }

  lemma StarredDirectory(dir: string, path: string)
    requires PlainDirectory(dir)
    ensures GlobMatch(dir + "/**", path) <==> UnderDirectory(dir, TrimStart(path, '/'))
  {
    var stars := dir + "/**";
    assert TrimEnd(dir, '/') == dir;
    assert stars[0] == dir[0] && TrimStart(stars, '/') == stars;
    assert stars[|stars| - 3..] == "/**" && stars[..|stars| - 3] == dir;
    hide TrimStart, TrimEnd, UnderDirectory;
  }

  /** The ways to spell a directory match alike: the path itself and everything below it. */
  lemma DirectorySpellingsAgree(dir: string, path: string)
    requires PlainDirectory(dir)
    ensures GlobMatch(dir, path) <==> UnderDirectory(dir, TrimStart(path, '/'))
    ensures GlobMatch(dir + "/", path) <==> GlobMatch(dir, path)
    ensures GlobMatch(dir + "/**", path) <==> GlobMatch(dir, path)
    ensures GlobMatch("/" + dir, path) <==> GlobMatch(dir, path)
  {
    hide GlobMatch;
    BareDirectory(dir, path);
    RootedDirectory(dir, path);
    SlashedDirectory(dir, path);
    StarredDirectory(dir, path);
  }

  // ----- what a pattern matches, said of the texts -----

  function Slashes(n: nat): string {
    if n == 0 then "" else "/" + Slashes(n - 1)
  }

  lemma {:induction false} LeadingSlashesGo(n: nat, rest: string)
    requires rest != "" ==> rest[0] != '/'
    ensures TrimStart(Slashes(n) + rest, '/') == rest
  {
    if n == 0 {
      assert Slashes(n) + rest == rest;
    } else {
      LeadingSlashesGo(n - 1, rest);
      assert (Slashes(n) + rest)[1..] == Slashes(n - 1) + rest;
    }
  }

  lemma {:induction false} TrailingSlashesGo(dir: string, m: nat)
    requires PlainDirectory(dir)
    ensures TrimEnd(dir + Slashes(m), '/') == dir
  {
    if m == 0 {
      assert dir + Slashes(m) == dir;
    } else {
      OneSlashMore(m - 1);
      TrailingSlashesGo(dir, m - 1);
      hide Slashes;
      OneSlashGoes(dir + Slashes(m - 1));
      assert dir + Slashes(m) == dir + Slashes(m - 1) + "/";
    }
  }

  lemma OneSlashGoes(s: string)
    ensures TrimEnd(s + "/", '/') == TrimEnd(s, '/')
  {
    var t := s + "/";
    assert t[|t| - 1] == '/' && t[..|t| - 1] == s;
  }

  lemma {:induction false} OneSlashMore(n: nat)
    ensures Slashes(n + 1) == Slashes(n) + "/"
  {
    if n > 0 {
      OneSlashMore(n - 1);
    }
  }

  lemma ManySlashesAndStars(dir: string, m: nat, path: string)
    requires PlainDirectory(dir)
    ensures GlobMatch(dir + Slashes(m) + "/**", path) <==> UnderDirectory(dir, TrimStart(path, '/'))
  {
    var stars := dir + Slashes(m) + "/**";
    TrailingSlashesGo(dir, m);
    assert stars[0] == dir[0] && TrimStart(stars, '/') == stars;
    assert stars[|stars| - 3..] == "/**" && stars[..|stars| - 3] == dir + Slashes(m);
    hide TrimStart, TrimEnd, UnderDirectory, Slashes;
  }

  /**
   Leading slashes of a path do not count, nor do more slashes before two stars.
   A directory matches itself and what is below it, a star and a text every path
   that ends in the text.
   */
  lemma PatternsMatchTexts(dir: string, suffix: string, m: nat, n: nat, rest: string)
    requires rest != "" ==> rest[0] != '/'
    ensures PlainDirectory(dir) ==>
      (GlobMatch(dir, Slashes(n) + rest) <==>
         rest == dir || (|dir| < |rest| && rest[..|dir|] == dir && rest[|dir|] == '/'))
    ensures PlainDirectory(dir) ==>
      (GlobMatch(dir + Slashes(m) + "/**", Slashes(n) + rest) <==> GlobMatch(dir, Slashes(n) + rest))
    ensures GlobMatch("*" + suffix, Slashes(n) + rest) <==>
      |suffix| <= |rest| && rest[|rest| - |suffix|..] == suffix
  {
    LeadingSlashesGo(n, rest);
    if PlainDirectory(dir) {
      ManySlashesAndStars(dir, m, Slashes(n) + rest);
      BareDirectory(dir, Slashes(n) + rest);
      BelowDirectory(dir, rest);
    }
    StarsMatchSuffixes(suffix, Slashes(n) + rest);
    hide *;
  }

  lemma BelowDirectory(dir: string, rest: string)
    ensures UnderDirectory(dir, rest) <==>
      rest == dir || (|dir| < |rest| && rest[..|dir|] == dir && rest[|dir|] == '/')
  {
    if dir + "/" <= rest {
      assert rest[..|dir| + 1] == dir + "/";
      assert rest[..|dir|] == dir && rest[|dir|] == '/';
    }
    if |dir| < |rest| && rest[..|dir|] == dir && rest[|dir|] == '/' {
      assert rest[..|dir| + 1] == dir + "/";
    }
  }

  lemma StarsMatchSuffixes(suffix: string, path: string)
    ensures var rest := TrimStart(path, '/');
      GlobMatch("*" + suffix, path) <==> |suffix| <= |rest| && rest[|rest| - |suffix|..] == suffix
  {
    hide TrimStart, TrimEnd, UnderDirectory;
    var rest := TrimStart(path, '/');
    assert ("*" + suffix)[1..] == suffix && "*" <= "*" + suffix;
    assert suffix == "" ==> rest[|rest|..] == "";
    assert suffix != "" ==> "*" + suffix != "*" by {
      assert |"*" + suffix| == 1 + |suffix|;
    }
  }
}
