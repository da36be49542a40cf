/** The default naming policy (auto/naming/default_naming.py): a resource
    code from the override table or the type's abbreviation, a prefix
    `product-e-code`, and a per-prefix sequence number found by counting
    the names already issued that match `prefix-*`. */
module DefaultNaming {
  import opened Strings
  import opened Naming

  /** `type_to_type`: conventional codes that replace the mechanical
      abbreviation of six type names. */
  const TypeToType: map<string, string> := map[
    "Group" := "asg",
    "Instance" := "ec2",
    "Listener" := "lsr",
    "Record" := "rcd",
    "Role" := "iam",
    "SubnetGroup" := "sng"]

  predicate IsCodeChar(c: char) {
    IsLower(c) || IsDigit(c)
  }

  /** What a resource code is made of: lowercase letters and digits, so it
      holds neither `-` nor a glob metacharacter. */
  predicate IsCode(code: string) {
    forall i :: 0 <= i < |code| ==> IsCodeChar(code[i])
  }

  /** A descriptor as the parser builds it: its short code belongs to its type. */
  predicate WellFormed(d: TypeDescriptor) {
    d.typeShort == Lower(GetResourceTypeShort(d.typeName))
  }

  /** The resource code `get_name` uses: the table's code for a type that
      is a key of `type_to_type`, the abbreviation otherwise. */
  function ResourceCode(d: TypeDescriptor): (code: string)
    ensures WellFormed(d) ==> IsCode(code)
  {
    TableCodes();
    LowerTypeShortIsLower(d.typeName);
    if d.typeName in TypeToType then TypeToType[d.typeName] else d.typeShort
  }

  /** The override table's codes are resource codes. */
  lemma TableCodes()
    ensures forall t :: t in TypeToType ==> IsCode(TypeToType[t])
  {
    forall t | t in TypeToType ensures IsCode(TypeToType[t]) {
      assert t in {"Group", "Instance", "Listener", "Record", "Role", "SubnetGroup"};
    }
  }

  /** Two keys share an abbreviation, which the table tells apart. */
  lemma RecordAndRoleCollide()
    ensures Lower(GetResourceTypeShort("Record")) == Lower(GetResourceTypeShort("Role")) == "r"
    ensures TypeToType["Record"] != TypeToType["Role"]
  {
    assert GetResourceTypeShort("Record") == "R";
    assert GetResourceTypeShort("Role") == "R";
  }

  /** The code chosen for a whole descriptor string `pkg:module:type...`:
      the table's when the type is one of its keys, its abbreviation
      otherwise. */
  lemma {:induction false} DescriptorCode(pkg: string, moduleName: string, typeName: string, rest: string)
    requires ':' !in pkg && ':' !in moduleName && ':' !in typeName
    requires rest == [] || rest[0] == ':'
    ensures ParseResourceUniqueTypeName(pkg + ":" + moduleName + ":" + typeName + rest).Ok?
    ensures var code := ResourceCode(ParseResourceUniqueTypeName(pkg + ":" + moduleName + ":" + typeName + rest).value);
      && (typeName in TypeToType ==> code == TypeToType[typeName])
      && (typeName !in TypeToType ==> code == Lower(GetResourceTypeShort(typeName)))
  {
    ParseDescriptorOf(pkg, moduleName, typeName, rest);
  }

  predicate IsGlobMeta(c: char) {
    c == '*' || c == '?' || c == '['
  }

  /** No character of `s` is a glob metacharacter. */
  predicate GlobFree(s: string)
    decreases |s|
  {
    s == [] || (!IsGlobMeta(s[0]) && GlobFree(s[1..]))
  }

  /** A concatenation is glob-free exactly when both parts are. */
  lemma {:induction false} GlobFreeAppend(a: string, b: string)
    ensures GlobFree(a + b) <==> GlobFree(a) && GlobFree(b)
    decreases |a|
  {
    if a == [] {
      assert a + b == b;
    } else {
      assert (a + b)[0] == a[0] && (a + b)[1..] == a[1..] + b;
      GlobFreeAppend(a[1..], b);
    }
  }

  /** Codes are glob-free. */
  lemma {:induction false} CodeGlobFree(code: string)
    ensures IsCode(code) ==> GlobFree(code)
    decreases |code|
  {
    if code != [] && IsCode(code) {
      assert IsCodeChar(code[0]);
      assert IsCode(code[1..]) by {
        forall i | 0 <= i < |code[1..]| ensures IsCodeChar(code[1..][i]) {
          assert code[1..][i] == code[i + 1];
        }
      }
      CodeGlobFree(code[1..]);
    }
  }

  /** The `fnmatch` patterns the engine builds: a glob-free literal followed
      by one trailing `*`. */
  predicate IsPrefixPattern(p: string) {
    |p| > 0 && p[|p| - 1] == '*' && GlobFree(p[..|p| - 1])
  }

  /** Shell-style matching as `fnmatch.fnmatchcase` does it, without
      character classes: `*` matches any run of characters, `?` any one
      character, and every other character itself. */
  predicate GlobMatch(name: string, pattern: string)
    decreases |pattern| + |name|
  {
    if pattern == [] then name == []
    else if pattern[0] == '*' then
      GlobMatch(name, pattern[1..]) || (name != [] && GlobMatch(name[1..], pattern))
    else name != [] && (pattern[0] == '?' || name[0] == pattern[0]) && GlobMatch(name[1..], pattern[1..])
  }

  /** A lone `*` matches every name. */
  lemma {:induction false} StarMatchesAll(name: string)
    ensures GlobMatch(name, "*")
    decreases |name|
  {
    if name != [] {
      StarMatchesAll(name[1..]);
    }
  }

  /** A glob-free literal followed by `*` matches exactly the names that
      start with the literal. */
  lemma {:induction false} GlobPrefixMatch(name: string, lit: string)
    requires GlobFree(lit)
    ensures GlobMatch(name, lit + "*") <==> StartsWith(name, lit)
    decreases |lit|
  {
    if lit == [] {
      assert lit + "*" == "*";
      StarMatchesAll(name);
    } else {
      assert (lit + "*")[0] == lit[0] && (lit + "*")[1..] == lit[1..] + "*";
      if name != [] {
        GlobPrefixMatch(name[1..], lit[1..]);
        if StartsWith(name, lit) {
          assert name[1..][..|lit| - 1] == name[..|lit|][1..];
        }
      }
    }
  }

  /** `fnmatch.fnmatch(name, pattern)` for such a pattern (case-sensitive):
      the name starts with the literal part, which is what the glob matcher
      answers for it. */
  predicate FnMatch(name: string, pattern: string)
    requires IsPrefixPattern(pattern)
    ensures FnMatch(name, pattern) <==> GlobMatch(name, pattern)
  {
    assert pattern == pattern[..|pattern| - 1] + "*";
    GlobPrefixMatch(name, pattern[..|pattern| - 1]);
    StartsWith(name, pattern[..|pattern| - 1])
  }

  /** The names of a registry that match a pattern. */
  function Matching(names: set<string>, pattern: string): set<string>
    requires IsPrefixPattern(pattern)
  {
    set n | n in names && FnMatch(n, pattern)
  }

  /** `f"{product_code}-{static_environment_name[0]}-{resource_type}"`. */
  function Prefix(productCode: string, envLetter: char, code: string): (p: string)
    ensures GlobFree(productCode) && !IsGlobMeta(envLetter) && IsCode(code) ==> GlobFree(p)
  {
    CodeGlobFree(code);
    GlobFreeAppend(productCode, "-");
    GlobFreeAppend(productCode + "-", [envLetter]);
    GlobFreeAppend(productCode + "-" + [envLetter], "-");
    GlobFreeAppend(productCode + "-" + [envLetter] + "-", code);
    productCode + "-" + [envLetter] + "-" + code
  }

  /** `f"{logical_name}-*"`: every name under the prefix. */
  function Pattern(prefix: string): (p: string)
    ensures GlobFree(prefix) ==> IsPrefixPattern(p) && p[..|p| - 1] == prefix + "-"
  {
    GlobFreeAppend(prefix, "-");
    assert (prefix + "-*")[..|prefix| + 1] == prefix + "-";
    prefix + "-*"
  }

  /** `f"{logical_name}-{logical_name_count:03d}"`: the prefix, a `-`, and
      at least three digits that read back as the sequence number. */
  function LogicalName(prefix: string, k: nat): (name: string)
    ensures |name| >= |prefix| + 4 && name[..|prefix| + 1] == prefix + "-"
  {
    prefix + "-" + ZeroPad3(k)
  }

  /** The digits after a prefix's `-` read back as the sequence number. */
  lemma LogicalNameNumber(prefix: string, k: nat)
    ensures var suffix := LogicalName(prefix, k)[|prefix| + 1..];
      AllDigits(suffix) && ValueOf(suffix) == k && (k < 1000 ==> |suffix| == 3)
  {
    ZeroPad3Value(k);
    assert LogicalName(prefix, k)[|prefix| + 1..] == ZeroPad3(k);
  }

  function CountOf(counts: map<string, nat>, code: string): nat {
    if code in counts then counts[code] else 0
  }

  /** The names `1 .. n` under a prefix. */
  function NameRange(prefix: string, n: nat): set<string> {
    set k | 1 <= k <= n :: LogicalName(prefix, k)
  }

  /** The registry an engine holds after issuing `counts[code]` names under
      each code: exactly the names `1 .. counts[code]` of each prefix. */
  function IssuedNames(productCode: string, envLetter: char, counts: map<string, nat>): set<string> {
    set code, k | code in counts && 1 <= k <= counts[code] :: LogicalName(Prefix(productCode, envLetter, code), k)
  }

  /** Two names under one prefix are equal exactly when their sequence
      numbers are. */
  lemma LogicalNameInjective(prefix: string, j: nat, k: nat)
    ensures LogicalName(prefix, j) == LogicalName(prefix, k) <==> j == k
  {
    var a, b := LogicalName(prefix, j), LogicalName(prefix, k);
    if a == b {
      assert a[|prefix| + 1..] == ZeroPad3(j);
      assert b[|prefix| + 1..] == ZeroPad3(k);
      ZeroPad3Injective(j, k);
    }
  }

  /** Since codes hold no `-`, one code followed by `-` starts with another
      code followed by `-` only when the two codes are equal. */
  lemma CodeIsolation(c1: string, c2: string, z: string)
    requires IsCode(c1) && IsCode(c2)
    ensures StartsWith(c1 + "-" + z, c2 + "-") <==> c1 == c2
  {
    var s, p := c1 + "-" + z, c2 + "-";
    if StartsWith(s, p) {
      if |c2| < |c1| {
        StartsWithAt(s, p, |c2|);
        assert false;
      } else if |c1| < |c2| {
        StartsWithAt(s, p, |c1|);
        assert false;
      } else {
        assert c1 == s[..|c1|] && c2 == p[..|c2|];
      }
    }
    if c1 == c2 {
      assert s[..|p|] == p;
    }
  }

  /** A common head can be dropped when testing for a prefix. */
  lemma StartsWithCommonHead(x: string, a: string, b: string)
    ensures StartsWith(x + a, x + b) <==> StartsWith(a, b)
  {
    if StartsWith(x + a, x + b) {
      assert a[..|b|] == (x + a)[..|x + b|][|x|..];
    }
    if StartsWith(a, b) {
      assert (x + a)[..|x + b|] == x + a[..|b|];
    }
  }

  /** Prefix isolation: a name issued under one code matches the pattern of
      another code's prefix exactly when the codes are equal. */
  lemma PrefixIsolation(productCode: string, envLetter: char, c1: string, c2: string, k: nat)
    requires GlobFree(productCode) && !IsGlobMeta(envLetter)
    requires IsCode(c1) && IsCode(c2)
    ensures FnMatch(LogicalName(Prefix(productCode, envLetter, c1), k), Pattern(Prefix(productCode, envLetter, c2)))
        <==> c1 == c2
  {
    var x := productCode + "-" + [envLetter] + "-";
    var z := ZeroPad3(k);
    var pattern := Pattern(Prefix(productCode, envLetter, c2));
    assert LogicalName(Prefix(productCode, envLetter, c1), k) == x + (c1 + "-" + z);
    assert pattern[..|pattern| - 1] == x + (c2 + "-");
    StartsWithCommonHead(x, c1 + "-" + z, c2 + "-");
    CodeIsolation(c1, c2, z);
  }

  /** Issuing under one code leaves the count of every other code as it was. */
  lemma {:induction false} IsolatedCount(names: set<string>, productCode: string, envLetter: char, c1: string, c2: string, k: nat)
    requires GlobFree(productCode) && !IsGlobMeta(envLetter)
    requires IsCode(c1) && IsCode(c2) && c1 != c2
    ensures var pattern := Pattern(Prefix(productCode, envLetter, c2));
      Matching(names + {LogicalName(Prefix(productCode, envLetter, c1), k)}, pattern) == Matching(names, pattern)
  {
    PrefixIsolation(productCode, envLetter, c1, c2, k);
  }

  /** There are `n` names numbered `1 .. n`. */
  lemma {:induction false} NameRangeSize(prefix: string, n: nat)
    ensures |NameRange(prefix, n)| == n
  {
    if n > 0 {
      NameRangeSize(prefix, n - 1);
      assert NameRange(prefix, n) == NameRange(prefix, n - 1) + {LogicalName(prefix, n)};
      if LogicalName(prefix, n) in NameRange(prefix, n - 1) {
        var k :| 1 <= k <= n - 1 && LogicalName(prefix, k) == LogicalName(prefix, n);
        LogicalNameInjective(prefix, k, n);
        assert false;
      }
    } else {
      assert NameRange(prefix, n) == {};
    }
  }

  /** In a registry of issued names, the names matching a code's pattern
      are exactly that code's names `1 .. counts[code]`; so their number is
      the code's count. */
  lemma {:induction false} MatchingIssued(productCode: string, envLetter: char, counts: map<string, nat>, code: string)
    requires GlobFree(productCode) && !IsGlobMeta(envLetter)
    requires forall c :: c in counts ==> IsCode(c)
    requires IsCode(code)
    ensures var prefix := Prefix(productCode, envLetter, code);
      && Matching(IssuedNames(productCode, envLetter, counts), Pattern(prefix)) == NameRange(prefix, CountOf(counts, code))
      && |Matching(IssuedNames(productCode, envLetter, counts), Pattern(prefix))| == CountOf(counts, code)
  {
    var prefix := Prefix(productCode, envLetter, code);
    var issued := IssuedNames(productCode, envLetter, counts);
    var m := Matching(issued, Pattern(prefix));
    forall n | n in m ensures n in NameRange(prefix, CountOf(counts, code)) {
      var c, k :| c in counts && 1 <= k <= counts[c] && n == LogicalName(Prefix(productCode, envLetter, c), k);
      PrefixIsolation(productCode, envLetter, c, code, k);
    }
    forall n | n in NameRange(prefix, CountOf(counts, code)) ensures n in m {
      var k :| 1 <= k <= CountOf(counts, code) && n == LogicalName(prefix, k);
      PrefixIsolation(productCode, envLetter, code, code, k);
    }
    NameRangeSize(prefix, CountOf(counts, code));
  }

  /** The next name of a code is not yet issued. */
  lemma {:induction false} IssueFresh(productCode: string, envLetter: char, counts: map<string, nat>, code: string)
    requires GlobFree(productCode) && !IsGlobMeta(envLetter)
    requires forall c :: c in counts ==> IsCode(c)
    requires IsCode(code)
    ensures LogicalName(Prefix(productCode, envLetter, code), CountOf(counts, code) + 1)
        !in IssuedNames(productCode, envLetter, counts)
  {
    var prefix := Prefix(productCode, envLetter, code);
    var n := CountOf(counts, code);
    var next := LogicalName(prefix, n + 1);
    if next in IssuedNames(productCode, envLetter, counts) {
      var c, k :| c in counts && 1 <= k <= counts[c] && next == LogicalName(Prefix(productCode, envLetter, c), k);
      PrefixIsolation(productCode, envLetter, code, code, n + 1);
      PrefixIsolation(productCode, envLetter, c, code, k);
      LogicalNameInjective(prefix, k, n + 1);
      assert false;
    }
  }

  /** A name numbered within its code's count is in the registry. */
  lemma InIssuedNames(productCode: string, envLetter: char, counts: map<string, nat>, code: string, k: nat)
    requires code in counts && 1 <= k <= counts[code]
    ensures LogicalName(Prefix(productCode, envLetter, code), k) in IssuedNames(productCode, envLetter, counts)
  {
  }

  /** Every name of the registry after issuing a code's next name was in
      the registry before or is that next name. */
  lemma {:induction false} IssuedAfterStep(productCode: string, envLetter: char, counts: map<string, nat>, code: string)
    ensures IssuedNames(productCode, envLetter, counts[code := CountOf(counts, code) + 1])
         <= IssuedNames(productCode, envLetter, counts)
            + {LogicalName(Prefix(productCode, envLetter, code), CountOf(counts, code) + 1)}
  {
    var n := CountOf(counts, code);
    var counts' := counts[code := n + 1];
    forall x | x in IssuedNames(productCode, envLetter, counts')
      ensures x in IssuedNames(productCode, envLetter, counts) + {LogicalName(Prefix(productCode, envLetter, code), n + 1)}
    {
      var c, k :| c in counts' && 1 <= k <= counts'[c] && x == LogicalName(Prefix(productCode, envLetter, c), k);
      if c != code || k != n + 1 {
        assert c in counts && k <= counts[c];
        InIssuedNames(productCode, envLetter, counts, c, k);
      }
    }
  }

  /** Every name of the registry before issuing, and the next name, are in
      the registry after. */
  lemma {:induction false} IssuedBeforeStep(productCode: string, envLetter: char, counts: map<string, nat>, code: string)
    ensures IssuedNames(productCode, envLetter, counts)
            + {LogicalName(Prefix(productCode, envLetter, code), CountOf(counts, code) + 1)}
         <= IssuedNames(productCode, envLetter, counts[code := CountOf(counts, code) + 1])
  {
    var n := CountOf(counts, code);
    var counts' := counts[code := n + 1];
    forall x | x in IssuedNames(productCode, envLetter, counts)
      ensures x in IssuedNames(productCode, envLetter, counts')
    {
      var c, k :| c in counts && 1 <= k <= counts[c] && x == LogicalName(Prefix(productCode, envLetter, c), k);
      InIssuedNames(productCode, envLetter, counts', c, k);
    }
    InIssuedNames(productCode, envLetter, counts', code, n + 1);
  }

  /** Issuing the next name of a code extends the registry by that name
      alone. */
  lemma {:induction false} IssueExtends(productCode: string, envLetter: char, counts: map<string, nat>, code: string)
    ensures IssuedNames(productCode, envLetter, counts[code := CountOf(counts, code) + 1])
         == IssuedNames(productCode, envLetter, counts)
            + {LogicalName(Prefix(productCode, envLetter, code), CountOf(counts, code) + 1)}
  {
    IssuedAfterStep(productCode, envLetter, counts, code);
    IssuedBeforeStep(productCode, envLetter, counts, code);
  }

  /** The state of an engine with registry `names` after it issued
      `counts[code]` names under each code: the registry holds, under each
      code, exactly the numbers `1 .. counts[code]`. An engine without an
      environment name has issued nothing. */
  ghost predicate RegistryInvariant(productCode: string, environmentName: string, names: set<string>,
                                    counts: map<string, nat>)
  {
    && (forall code :: code in counts ==> IsCode(code))
    && if environmentName == [] then counts == map[] && names == {}
       else names == IssuedNames(productCode, environmentName[0], counts)
  }

  /** Issuing a code's next name keeps the invariant: the registry holds
      as many names matching the code's pattern as the code's count, and
      the name numbered one more is new. */
  lemma {:induction false} IssuePreservesInvariant(productCode: string, environmentName: string, names: set<string>,
                                                   counts: map<string, nat>, code: string)
    requires RegistryInvariant(productCode, environmentName, names, counts)
    requires environmentName != [] && GlobFree(productCode) && !IsGlobMeta(environmentName[0])
    requires IsCode(code)
    ensures var prefix := Prefix(productCode, environmentName[0], code);
      var n := |Matching(names, Pattern(prefix))|;
      var name := LogicalName(prefix, n + 1);
      && n == CountOf(counts, code)
      && name !in names
      && RegistryInvariant(productCode, environmentName, names + {name}, counts[code := n + 1])
  {
    var name := LogicalName(Prefix(productCode, environmentName[0], code), CountOf(counts, code) + 1);
    MatchingIssued(productCode, environmentName[0], counts, code);
    IssueFresh(productCode, environmentName[0], counts, code);
    IssueExtends(productCode, environmentName[0], counts, code);
  }

  /** The engine of `DefaultNaming`: its configuration and the registry
      `logical_names` of the names it has issued, which only grows. */
  class DefaultNaming {
    const productCode: string
    const staticEnvironmentName: string
    var logicalNames: set<string>
    /** For each resource code, how many names were issued under it. */
    ghost var counts: map<string, nat>

    /** The registry holds, under each code, exactly the numbers
        `1 .. counts[code]`. */
    ghost predicate Valid()
      reads this
    {
      RegistryInvariant(productCode, staticEnvironmentName, logicalNames, counts)
    }

    /** `__init__`: an engine with an empty registry. */
    constructor (productCode: string, staticEnvironmentName: string)
      ensures this.productCode == productCode
      ensures this.staticEnvironmentName == staticEnvironmentName
      ensures Valid()
      ensures logicalNames == {} && counts == map[]
    {
      this.productCode := productCode;
      this.staticEnvironmentName := staticEnvironmentName;
      logicalNames := {};
      counts := map[];
    }

    /** `get_logical_name_count`: the number of registry entries that match
        the pattern, each visited once. */
    method GetLogicalNameCount(logicalName: string) returns (count: nat)
      requires IsPrefixPattern(logicalName)
      ensures count == |Matching(logicalNames, logicalName)|
    {
      count := 0;
      var remaining := logicalNames;
      ghost var visited: set<string> := {};
      while remaining != {}
        invariant remaining + visited == logicalNames
        invariant remaining !! visited
        invariant count == |Matching(visited, logicalName)|
        decreases |remaining|
      {
        var n :| n in remaining;
        if FnMatch(n, logicalName) {
          assert Matching(visited + {n}, logicalName) == Matching(visited, logicalName) + {n};
          count := count + 1;
        } else {
          assert Matching(visited + {n}, logicalName) == Matching(visited, logicalName);
        }
        remaining := remaining - {n};
        visited := visited + {n};
      }
      assert visited == logicalNames;
    }

    /** `get_logical_name`: the prefix's next sequence number, which is one
        more than the code's count, appended to the prefix; the name is new
        and is added to the registry. The ghost `code` names the resource
        code the prefix was built from. */
    method GetLogicalName(logicalName: string, ghost code: string) returns (name: string)
      requires Valid()
      requires staticEnvironmentName != []
      requires GlobFree(productCode) && !IsGlobMeta(staticEnvironmentName[0])
      requires IsCode(code) && logicalName == Prefix(productCode, staticEnvironmentName[0], code)
      modifies this
      ensures Valid()
      ensures |Matching(old(logicalNames), Pattern(logicalName))| == CountOf(old(counts), code)
      ensures name == LogicalName(logicalName, |Matching(old(logicalNames), Pattern(logicalName))| + 1)
      ensures name !in old(logicalNames)
      ensures logicalNames == old(logicalNames) + {name}
      ensures counts == old(counts)[code := CountOf(old(counts), code) + 1]
    {
      ghost var next := counts[code := CountOf(counts, code) + 1];
      var logicalNameCount := GetLogicalNameCount(Pattern(logicalName));
      IssuePreservesInvariant(productCode, staticEnvironmentName, logicalNames, counts, code);
      logicalNameCount := logicalNameCount + 1;
      name := LogicalName(logicalName, logicalNameCount);
      logicalNames := logicalNames + {name};
      counts := next;
    }

    /** `get_name`: parse the descriptor, choose the resource code, and
        issue the next name under `product-e-code`. A descriptor with fewer
        than three segments and an empty environment name fail, in that
        order, and leave the registry as it was. */
    method GetName(resourceUniqueTypeName: string) returns (r: Result<string>)
      requires Valid()
      requires GlobFree(productCode)
      requires staticEnvironmentName != [] ==> !IsGlobMeta(staticEnvironmentName[0])
      modifies this
      ensures Valid()
      ensures ParseResourceUniqueTypeName(resourceUniqueTypeName).Err? ==>
        r == Err(MalformedDescriptor) && logicalNames == old(logicalNames) && counts == old(counts)
      ensures ParseResourceUniqueTypeName(resourceUniqueTypeName).Ok? && staticEnvironmentName == [] ==>
        r == Err(EmptyEnvironmentName) && logicalNames == old(logicalNames) && counts == old(counts)
      ensures ParseResourceUniqueTypeName(resourceUniqueTypeName).Ok? && staticEnvironmentName != [] ==>
          var code := ResourceCode(ParseResourceUniqueTypeName(resourceUniqueTypeName).value);
          var prefix := Prefix(productCode, staticEnvironmentName[0], code);
          var k := |Matching(old(logicalNames), Pattern(prefix))|;
          && k == CountOf(old(counts), code)
          && r == Ok(LogicalName(prefix, k + 1))
          && r.value !in old(logicalNames)
          && logicalNames == old(logicalNames) + {r.value}
          && counts == old(counts)[code := k + 1]
    {
      var result := ParseResourceUniqueTypeName(resourceUniqueTypeName);
      if result.Err? {
        return Err(MalformedDescriptor);
      }
      var resourceType := ResourceCode(result.value);
      if staticEnvironmentName == [] {
        return Err(EmptyEnvironmentName);
      }
      var prefix := Prefix(productCode, staticEnvironmentName[0], resourceType);
      ghost var k := |Matching(logicalNames, Pattern(prefix))|;
      var name := GetLogicalName(prefix, resourceType);
      r := Ok(name);
      assert r.value == LogicalName(prefix, k + 1);
    }
  }

  /** A new engine, given two resources of one code, names them `-001` and
      `-002`. */
  method SameCodeSession(productCode: string, environmentName: string, descriptor: string)
    returns (first: string, second: string)
    requires GlobFree(productCode) && environmentName != [] && !IsGlobMeta(environmentName[0])
    requires ParseResourceUniqueTypeName(descriptor).Ok?
    ensures var prefix := Prefix(productCode, environmentName[0], ResourceCode(ParseResourceUniqueTypeName(descriptor).value));
      first == prefix + "-001" && second == prefix + "-002"
    ensures first != second
  {
    ghost var code := ResourceCode(ParseResourceUniqueTypeName(descriptor).value);
    ghost var prefix := Prefix(productCode, environmentName[0], code);
    FirstNames(prefix);
    var engine := new DefaultNaming(productCode, environmentName);
    var r1 := engine.GetName(descriptor);
    assert r1 == Ok(LogicalName(prefix, 1));
    assert CountOf(engine.counts, code) == 1;
    var r2 := engine.GetName(descriptor);
    assert r2 == Ok(LogicalName(prefix, 2));
    first, second := r1.value, r2.value;
  }

  /** A new engine, given a resource and then one of another code, names
      both `-001`, under their own prefixes, and the two names differ. */
  method OtherCodeSession(productCode: string, environmentName: string, descriptor: string, other: string)
    returns (first: string, second: string)
    requires GlobFree(productCode) && environmentName != [] && !IsGlobMeta(environmentName[0])
    requires ParseResourceUniqueTypeName(descriptor).Ok? && ParseResourceUniqueTypeName(other).Ok?
    requires ResourceCode(ParseResourceUniqueTypeName(descriptor).value)
          != ResourceCode(ParseResourceUniqueTypeName(other).value)
    ensures first == Prefix(productCode, environmentName[0], ResourceCode(ParseResourceUniqueTypeName(descriptor).value)) + "-001"
    ensures second == Prefix(productCode, environmentName[0], ResourceCode(ParseResourceUniqueTypeName(other).value)) + "-001"
    ensures first != second
  {
    ghost var code := ResourceCode(ParseResourceUniqueTypeName(descriptor).value);
    ghost var otherCode := ResourceCode(ParseResourceUniqueTypeName(other).value);
    ghost var prefix := Prefix(productCode, environmentName[0], code);
    ghost var otherPrefix := Prefix(productCode, environmentName[0], otherCode);
    FirstNames(prefix);
    FirstNames(otherPrefix);
    var engine := new DefaultNaming(productCode, environmentName);
    var r1 := engine.GetName(descriptor);
    assert r1 == Ok(LogicalName(prefix, 1));
    assert CountOf(engine.counts, otherCode) == 0;
    ghost var afterFirst := engine.logicalNames;
    assert r1.value in afterFirst;
    var r2 := engine.GetName(other);
    assert r2 == Ok(LogicalName(otherPrefix, 1)) && r2.value !in afterFirst;
    first, second := r1.value, r2.value;
  }

  /** End to end, `aws:ec2/instance:Instance` gets the table's code `ec2`. */
  lemma InstanceCode()
    ensures ParseResourceUniqueTypeName("aws" + ":" + "ec2/instance" + ":" + "Instance" + "").Ok?
    ensures ResourceCode(ParseResourceUniqueTypeName("aws" + ":" + "ec2/instance" + ":" + "Instance" + "").value) == "ec2"
  {
    DescriptorCode("aws", "ec2/instance", "Instance", "");
  }

  /** The first names under any prefix. */
  lemma FirstNames(prefix: string)
    ensures LogicalName(prefix, 1) == prefix + "-001"
    ensures LogicalName(prefix, 2) == prefix + "-002"
  {
    ZeroPad3Examples();
  }

  /** The prefix of the code `ec2` for product `app` in environment `prod`. */
  lemma ExamplePrefix()
    ensures Prefix("app", "prod"[0], "ec2") == "app-p-ec2"
  {
  }
}
