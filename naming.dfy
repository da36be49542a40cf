/** The shared part of every naming policy: parsing a resource type
    descriptor `pkg:module:type` and abbreviating its type to the
    in-order uppercase letters (auto/naming/naming.py). Characters are
    modelled as ASCII: `isupper` holds exactly of 'A'..'Z'. */
module Naming {
  import opened Strings

  /** The failures a naming call can end in; in the source both are
      `IndexError`s raised by indexing past the end. Only the first arises
      here; `Naming` hosts the second for `DefaultNaming.GetName`, so that
      both share one `Result` type. */
  datatype NamingError =
    | MalformedDescriptor    // fewer than three `:`-separated segments
    | EmptyEnvironmentName   // `static_environment_name[0]` of ""

  datatype Result<T> = Ok(value: T) | Err(error: NamingError)

  /** The `Tuple(pkg, module, type, type_short)` the parser returns. */
  datatype TypeDescriptor = TypeDescriptor(
    pkg: string,
    moduleName: string,
    typeName: string,
    typeShort: string)

  predicate IsUpper(c: char) {
    'A' <= c <= 'Z'
  }

  predicate IsLower(c: char) {
    'a' <= c <= 'z'
  }

  function ToLower(c: char): (l: char)
    ensures IsUpper(c) ==> IsLower(l) && l as int == c as int - 'A' as int + 'a' as int
    ensures !IsUpper(c) ==> l == c
  {
    if IsUpper(c) then (c as int - 'A' as int + 'a' as int) as char else c
  }

  /** `s.lower()`. */
  function Lower(s: string): (r: string)
    ensures |r| == |s|
    ensures forall i :: 0 <= i < |s| ==> r[i] == ToLower(s[i])
  {
    seq(|s|, i requires 0 <= i < |s| => ToLower(s[i]))
  }

  /** Number of uppercase characters in `s`. */
  function CountUpper(s: string): (n: nat)
    ensures n <= |s|
  {
    if s == [] then 0
    else (if IsUpper(s[0]) then 1 else 0) + CountUpper(s[1..])
  }

  /** `r` can be obtained from `s` by deleting characters. */
  predicate IsSubsequence(r: string, s: string)
    decreases |s|
  {
    if r == [] then true
    else if s == [] then false
    else (r[0] == s[0] && IsSubsequence(r[1..], s[1..])) || IsSubsequence(r, s[1..])
  }

  /** `get_resource_type_short`: the uppercase characters of the type, in
      order. The result is uppercase throughout and as long as `t` has
      uppercase characters. */
  function GetResourceTypeShort(t: string): (r: string)
    ensures forall i :: 0 <= i < |r| ==> IsUpper(r[i])
    ensures |r| == CountUpper(t) <= |t|
  {
    if t == [] then []
    else if IsUpper(t[0]) then [t[0]] + GetResourceTypeShort(t[1..])
    else GetResourceTypeShort(t[1..])
  }

  /** The short code keeps characters of the type only, in their order. */
  lemma {:induction false} TypeShortIsSubsequence(t: string)
    ensures IsSubsequence(GetResourceTypeShort(t), t)
    decreases |t|
  {
    if t != [] {
      TypeShortIsSubsequence(t[1..]);
      var r := GetResourceTypeShort(t);
      if IsUpper(t[0]) {
        assert r[0] == t[0] && r[1..] == GetResourceTypeShort(t[1..]);
      }
    }
  }

  /** A subsequence made of uppercase characters only has at most as many
      characters as the string has uppercase characters. */
  lemma {:induction false} UpperSubsequenceBound(r: string, s: string)
    requires IsSubsequence(r, s)
    requires forall i :: 0 <= i < |r| ==> IsUpper(r[i])
    ensures |r| <= CountUpper(s)
    decreases |s|
  {
    if r != [] {
      if r[0] == s[0] && IsSubsequence(r[1..], s[1..]) {
        UpperSubsequenceBound(r[1..], s[1..]);
      } else {
        UpperSubsequenceBound(r, s[1..]);
      }
    }
  }

  /** The three properties of `GetResourceTypeShort` pin its result down:
      any uppercase-only subsequence of `t` as long as `t`'s uppercase count
      is exactly the short code. */
  lemma {:induction false} TypeShortUnique(r: string, t: string)
    requires IsSubsequence(r, t)
    requires forall i :: 0 <= i < |r| ==> IsUpper(r[i])
    requires |r| == CountUpper(t)
    ensures r == GetResourceTypeShort(t)
    decreases |t|
  {
    if t != [] && r != [] {
      if IsUpper(t[0]) {
        if r[0] == t[0] && IsSubsequence(r[1..], t[1..]) {
          TypeShortUnique(r[1..], t[1..]);
          assert r == [r[0]] + r[1..];
        } else {
          UpperSubsequenceBound(r, t[1..]);
          assert false;
        }
      } else {
        assert r[0] != t[0];
        TypeShortUnique(r, t[1..]);
      }
    } else if t != [] {
      TypeShortUnique(r, t[1..]);
    }
  }

  /** The short code is empty exactly when the type has no uppercase
      character. */
  lemma {:induction false} TypeShortEmpty(t: string)
    ensures GetResourceTypeShort(t) == [] <==> forall i :: 0 <= i < |t| ==> !IsUpper(t[i])
    decreases |t|
  {
    if t != [] {
      TypeShortEmpty(t[1..]);
      assert forall i :: 1 <= i < |t| ==> t[i] == t[1..][i - 1];
    }
  }

  /** The short code distributes over concatenation. */
  lemma {:induction false} TypeShortAppend(a: string, b: string)
    ensures GetResourceTypeShort(a + b) == GetResourceTypeShort(a) + GetResourceTypeShort(b)
    decreases |a|
  {
    if a != [] {
      assert (a + b)[0] == a[0];
      assert (a + b)[1..] == a[1..] + b;
      TypeShortAppend(a[1..], b);
      if IsUpper(a[0]) {
        assert GetResourceTypeShort(a + b) == [a[0]] + GetResourceTypeShort(a[1..] + b);
      } else {
        assert GetResourceTypeShort(a + b) == GetResourceTypeShort(a[1..] + b);
      }
    } else {
      assert a + b == b;
    }
  }

  /** The lower-cased short code consists of lowercase letters only. */
  lemma LowerTypeShortIsLower(t: string)
    ensures forall i :: 0 <= i < |Lower(GetResourceTypeShort(t))| ==> IsLower(Lower(GetResourceTypeShort(t))[i])
  {
  }

  /** `parse_resource_unique_type_name`: the first three `:`-separated
      segments and the lower-cased short code of the third; later segments
      are ignored. Fewer than two colons is the `split[2]` index error. */
  function ParseResourceUniqueTypeName(s: string): (r: Result<TypeDescriptor>)
    ensures r.Ok? <==> Count(s, ':') >= 2
    ensures r.Ok? ==> ':' !in r.value.pkg && ':' !in r.value.moduleName && ':' !in r.value.typeName
    ensures r.Ok? ==> r.value.typeShort == Lower(GetResourceTypeShort(r.value.typeName))
  {
    var split := Split(s, ':');
    if |split| < 3 then Err(MalformedDescriptor)
    else Ok(TypeDescriptor(split[0], split[1], split[2], Lower(GetResourceTypeShort(split[2]))))
  }

  /** The parsed segments, re-joined by `:`, are a prefix of the input that
      ends it or is followed by a further `:`. */
  lemma ParsedSegmentsLead(s: string)
    requires ParseResourceUniqueTypeName(s).Ok?
    ensures var d := ParseResourceUniqueTypeName(s).value;
      var head := d.pkg + ":" + d.moduleName + ":" + d.typeName;
      StartsWith(s, head) && (|s| == |head| || s[|head|] == ':')
  {
    JoinHead(Split(s, ':'), ':');
    JoinSplit(s, ':');
  }

  /** Joining at least three pieces starts with the first three, followed by
      the end or a separator. */
  lemma JoinHead(parts: seq<string>, sep: char)
    requires |parts| >= 3
    ensures var head := parts[0] + [sep] + parts[1] + [sep] + parts[2];
      var j := Join(parts, sep);
      StartsWith(j, head) && (|j| == |head| || j[|head|] == sep)
  {
    var head := parts[0] + [sep] + parts[1] + [sep] + parts[2];
    var tail := if |parts| == 3 then [] else [sep] + Join(parts[3..], sep);
    assert Join(parts[2..], sep) == parts[2] + tail;
    assert Join(parts[1..], sep) == parts[1] + [sep] + Join(parts[2..], sep);
    assert Join(parts, sep) == head + tail;
  }

  /** The first piece of splitting a separator-free string followed by
      nothing or by a separator is that string. */
  lemma {:induction false} SplitHead(typeName: string, rest: string)
    requires ':' !in typeName
    requires rest == [] || rest[0] == ':'
    ensures Split(typeName + rest, ':')[0] == typeName
  {
    if rest == [] {
      assert typeName + rest == typeName;
      SplitWithoutSeparator(typeName, ':');
    } else {
      assert typeName + rest == typeName + [':'] + rest[1..];
      SplitCons(typeName, ':', rest[1..]);
    }
  }

  /** The first three pieces of splitting `pkg:module:type...`. */
  lemma {:induction false} SplitThree(pkg: string, moduleName: string, third: string)
    requires ':' !in pkg && ':' !in moduleName
    ensures var parts := Split(pkg + [':'] + (moduleName + [':'] + third), ':');
      |parts| >= 3 && parts[0] == pkg && parts[1] == moduleName && parts[2] == Split(third, ':')[0]
  {
    SplitCons(pkg, ':', moduleName + [':'] + third);
    SplitCons(moduleName, ':', third);
  }

  /** Regrouping a descriptor string around its first two separators. */
  lemma DescriptorAssoc(pkg: string, moduleName: string, typeName: string, rest: string)
    ensures pkg + ":" + moduleName + ":" + typeName + rest == pkg + [':'] + (moduleName + [':'] + (typeName + rest))
  {
  }

  /** Any descriptor of the form `pkg:module:type` followed by nothing or by
      further `:`-segments parses to exactly those three segments. */
  lemma ParseDescriptorOf(pkg: string, moduleName: string, typeName: string, rest: string)
    requires ':' !in pkg && ':' !in moduleName && ':' !in typeName
    requires rest == [] || rest[0] == ':'
    ensures ParseResourceUniqueTypeName(pkg + ":" + moduleName + ":" + typeName + rest)
         == Ok(TypeDescriptor(pkg, moduleName, typeName, Lower(GetResourceTypeShort(typeName))))
  {
    DescriptorAssoc(pkg, moduleName, typeName, rest);
    SplitThree(pkg, moduleName, typeName + rest);
    SplitHead(typeName, rest);
  }

  /** Worked abbreviations of type names, before lower-casing. */
  lemma TypeShortSubnetGroup()
    ensures GetResourceTypeShort("SubnetGroup") == "SG"
  {
  }

  lemma TypeShortLoadBalancer()
    ensures GetResourceTypeShort("LoadBalancer") == "LB"
  {
  }

  lemma TypeShortBucket()
    ensures GetResourceTypeShort("Bucket") == "B"
  {
  }
}
