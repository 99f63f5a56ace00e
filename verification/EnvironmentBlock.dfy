/** ConfigurationLocator.cpp: configuration paths are read from environment variables, on one
    platform by walking the environment block and cutting the value up in place with wcstok_s,
    on the other with getline. */
module ConfigurationLocator {
  import opened Results
  import opened Sequences

  const NUL := '\0'
  const NameValueSeparator := '='

  /** The path a part of a value leads to, if it is usable: expansion, canonical form and the
      test that the file exists are not followed further. */
  type Resolver = string -> Option<string>

  predicate NulFree(s: string) {
    NUL !in s
  }

  // ---------- values ----------

  /** The place of the first `c`, or the length. */
  function IndexOf(s: string, c: char): (i: nat)
    ensures i <= |s| && c !in s[..i] && (i < |s| ==> s[i] == c)
  {
    if s == "" || s[0] == c then 0
    else
      assert s[..1 + IndexOf(s[1..], c)] == [s[0]] + s[1..][..IndexOf(s[1..], c)];
      1 + IndexOf(s[1..], c)
  }

  /** What is left after the first `c`. */
  function After(s: string, c: char): string {
    if IndexOf(s, c) < |s| then s[IndexOf(s, c) + 1..] else ""
  }

  /** The parts that getline reads: no part follows a delimiter at the end. */
  function Parts(value: string, delimiter: char): seq<string>
    decreases |value|
  {
    if value == "" then [] else [value[..IndexOf(value, delimiter)]] + Parts(After(value, delimiter), delimiter)
  }

  /** The tokens that wcstok_s finds: delimiters in front of a token are skipped. */
  function Tokens(value: string, delimiter: char): seq<string>
    decreases |value|
  {
    if value == "" then []
    else if value[0] == delimiter then Tokens(value[1..], delimiter)
    else [value[..IndexOf(value, delimiter)]] + Tokens(After(value, delimiter), delimiter)
  }

  function NonEmpty(parts: seq<string>): seq<string> {
    if parts == [] then []
    else (if parts[0] == "" then [] else [parts[0]]) + NonEmpty(parts[1..])
  }

  function Source(part: string, resolve: Resolver): seq<string> {
    if resolve(part).Some? then [resolve(part).value] else []
  }

  function Resolved(parts: seq<string>, resolve: Resolver): seq<string> {
    if parts == [] then [] else Source(parts[0], resolve) + Resolved(parts[1..], resolve)
  }

  lemma {:induction false} TokensAreNonEmptyParts(value: string, delimiter: char)
    ensures Tokens(value, delimiter) == NonEmpty(Parts(value, delimiter))
    decreases |value|
  {
    if value != "" {
      var part, rest := value[..IndexOf(value, delimiter)], After(value, delimiter);
      TokensAreNonEmptyParts(rest, delimiter);
      assert Parts(value, delimiter)[1..] == Parts(rest, delimiter);
      if value[0] == delimiter {
        assert value[1..] == rest && part == "";
      }
    }
  }

  lemma {:induction false} EmptyPartsDoNotMatter(parts: seq<string>, resolve: Resolver)
    requires resolve("").None?
    ensures Resolved(NonEmpty(parts), resolve) == Resolved(parts, resolve)
  {
    if parts != [] {
      EmptyPartsDoNotMatter(parts[1..], resolve);
      if parts[0] == "" {
        assert NonEmpty(parts) == NonEmpty(parts[1..]);
      } else {
        ResolvedCons(parts[0], NonEmpty(parts[1..]), resolve);
      }
    }
  }

  /** Where an empty path is not usable, both ways of reading a value give the same sources. */
  lemma {:induction false} BothPlatformsAgree(value: string, delimiter: char, resolve: Resolver)
    requires resolve("").None?
    ensures Resolved(Tokens(value, delimiter), resolve) == Resolved(Parts(value, delimiter), resolve)
  {
    TokensAreNonEmptyParts(value, delimiter);
    EmptyPartsDoNotMatter(Parts(value, delimiter), resolve);
  }

  lemma {:induction false} ResolvedCons(part: string, rest: seq<string>, resolve: Resolver)
    ensures Resolved([part] + rest, resolve) == Source(part, resolve) + Resolved(rest, resolve)
  {
    assert ([part] + rest)[1..] == rest;
  }

  /** The parts in a row, with a delimiter between any two. */
  function Join(parts: seq<string>, delimiter: char): string {
    if parts == [] then ""
    else if |parts| == 1 then parts[0]
    else parts[0] + [delimiter] + Join(parts[1..], delimiter)
  }

  ghost predicate ArePaths(parts: seq<string>, delimiter: char) {
    forall p :: p in parts ==> p != "" && delimiter !in p
  }

  lemma {:induction false} FirstAt(s: string, front: string, c: char, rest: string)
    requires s == front + [c] + rest && c !in front
    ensures IndexOf(s, c) == |front| && After(s, c) == rest
  {
    if front == "" {
      assert s[0] == c && s[1..] == rest;
    } else {
      assert s[0] == front[0] && front[0] in front;
      assert s[1..] == front[1..] + [c] + rest;
      FirstAt(s[1..], front[1..], c, rest);
      assert s[|front| + 1..] == rest;
    }
  }

  /** What was joined is what is read back: in both ways of reading, the value's parts are the
      paths between the delimiters, in order. */
  lemma {:induction false} JoinedIsReadBack(parts: seq<string>, delimiter: char)
    requires ArePaths(parts, delimiter)
    ensures Tokens(Join(parts, delimiter), delimiter) == Parts(Join(parts, delimiter), delimiter) == parts
  {
    var s := Join(parts, delimiter);
    if |parts| == 1 {
      assert parts[0] in parts;
      LastPart(parts[0], delimiter);
      assert [parts[0]] == parts;
    } else if parts != [] {
      assert parts[0] in parts && forall p :: p in parts[1..] ==> p in parts;
      JoinedIsReadBack(parts[1..], delimiter);
      FirstAt(s, parts[0], delimiter, Join(parts[1..], delimiter));
      assert s[0] == parts[0][0] && parts[0][0] in parts[0];
      assert s[..|parts[0]|] == parts[0];
      assert [parts[0]] + parts[1..] == parts;
    }
  }

  lemma {:induction false} LastPart(s: string, delimiter: char)
    requires s != "" && delimiter !in s
    ensures Tokens(s, delimiter) == Parts(s, delimiter) == [s]
  {
    assert s[0] in s && s[..|s|] == s;
    assert IndexOf(s, delimiter) == |s|;
    assert Tokens("", delimiter) == Parts("", delimiter) == [];
  }

  /** Of a list of parts the usable paths are kept, each in its place. */
  lemma {:induction false} ResolvedInPlace(before: seq<string>, part: string, behind: seq<string>, resolve: Resolver)
    ensures Resolved(before + [part] + behind, resolve) ==
      Resolved(before, resolve)
      + (if resolve(part).Some? then [resolve(part).value] else [])
      + Resolved(behind, resolve)
  {
    if before == [] {
      ResolvedCons(part, behind, resolve);
      assert before + [part] + behind == [part] + behind;
    } else {
      var rest := before[1..] + [part] + behind;
      var one := if resolve(part).Some? then [resolve(part).value] else [];
      assert before + [part] + behind == [before[0]] + rest;
      ResolvedCons(before[0], rest, resolve);
      ResolvedInPlace(before[1..], part, behind, resolve);
      Associative(Source(before[0], resolve), Resolved(before[1..], resolve) + one, Resolved(behind, resolve));
      Associative(Source(before[0], resolve), Resolved(before[1..], resolve), one);
    }
  }

  // ---------- cutting up a value ----------

  /** The characters from `from` on are a string and the NUL at its end. */
  ghost predicate Holds(chars: seq<char>, from: nat, s: string) {
    from + |s| + 1 == |chars| && chars[from..] == s + [NUL] && NulFree(s)
  }

  lemma {:induction false} HoldsFurtherOn(chars: seq<char>, from: nat, s: string, k: nat)
    requires Holds(chars, from, s) && k <= |s|
    ensures Holds(chars, from + k, s[k..]) && chars[from..from + k] == s[..k]
    ensures chars[from + k] == if k < |s| then s[k] else NUL
  {
    assert chars[from + k] == chars[from..][k];
    assert chars[from + k..] == chars[from..][k..] == s[k..] + [NUL];
    assert chars[from..from + k] == chars[from..][..k];
  }

  /** The first half of wcstok_s. */
  method SkipDelimiters(buffer: array<char>, from: nat, delimiter: char, ghost s: string)
    returns (start: nat, ghost rest: string)
    requires delimiter != NUL && Holds(buffer[..], from, s)
    ensures start < buffer.Length && Holds(buffer[..], start, rest) && |rest| <= |s|
    ensures Tokens(rest, delimiter) == Tokens(s, delimiter)
    ensures rest != "" ==> rest[0] != delimiter
    ensures buffer[start] == if rest == "" then NUL else rest[0]
  {
    start, rest := from, s;
    HoldsFurtherOn(buffer[..], start, rest, 0);
    while buffer[start] == delimiter
      invariant start < buffer.Length && Holds(buffer[..], start, rest) && |rest| <= |s|
      invariant buffer[start] == if rest == "" then NUL else rest[0]
      invariant Tokens(rest, delimiter) == Tokens(s, delimiter)
      decreases buffer.Length - start
    {
      HoldsFurtherOn(buffer[..], start, rest, 1);
      start, rest := start + 1, rest[1..];
      HoldsFurtherOn(buffer[..], start, rest, 0);
    }
  }

  /** The second half looks for the end of the token. */
  method TokenEnd(buffer: array<char>, start: nat, delimiter: char, ghost s: string) returns (end: nat)
    requires delimiter != NUL && Holds(buffer[..], start, s) && s != "" && s[0] != delimiter
    ensures end == start + IndexOf(s, delimiter) > start && end < buffer.Length
    ensures buffer[end] == if end < start + |s| then delimiter else NUL
    ensures buffer[start..end] == s[..IndexOf(s, delimiter)]
  {
    end := start;
    ghost var n := IndexOf(s, delimiter);
    HoldsFurtherOn(buffer[..], start, s, 0);
    while buffer[end] != NUL && buffer[end] != delimiter
      invariant start <= end <= start + n && end < buffer.Length
      invariant buffer[end] == if end - start < |s| then s[end - start] else NUL
      decreases buffer.Length - end
    {
      HoldsFurtherOn(buffer[..], start, s, end - start + 1);
      end := end + 1;
    }
    HoldsFurtherOn(buffer[..], start, s, n);
    assert buffer[start..end] == buffer[..][start..end];
  }

  lemma {:induction false} HoldsAfterToken(chars: seq<char>, cut: seq<char>, start: nat, s: string, delimiter: char)
    requires Holds(chars, start, s) && IndexOf(s, delimiter) < |s|
    requires cut == chars[start + IndexOf(s, delimiter) := NUL]
    ensures Holds(cut, start + IndexOf(s, delimiter) + 1, After(s, delimiter))
  {
    var n := IndexOf(s, delimiter);
    HoldsFurtherOn(chars, start, s, n + 1);
    assert cut[start + n + 1..] == chars[start + n + 1..];
  }

  /** wcstok_s: puts a NUL in the place of the delimiter behind the token. */
  method NextToken(buffer: array<char>, from: nat, delimiter: char, ghost s: string)
    returns (token: Option<string>, context: nat, ghost rest: string)
    requires delimiter != NUL && Holds(buffer[..], from, s)
    modifies buffer
    ensures Holds(buffer[..], context, rest) && |rest| <= |s|
    ensures token.Some? ==> |rest| < |s|
    ensures Tokens(s, delimiter) == if token.None? then [] else [token.value] + Tokens(rest, delimiter)
  {
    var start;
    start, rest := SkipDelimiters(buffer, from, delimiter, s);
    if buffer[start] == NUL {
      return None, start, rest;
    }
    var end := TokenEnd(buffer, start, delimiter, rest);
    token := Some(buffer[start..end]);
    assert Tokens(s, delimiter) == [token.value] + Tokens(After(rest, delimiter), delimiter);
    if buffer[end] == delimiter {
      HoldsAfterToken(buffer[..], buffer[..][end := NUL], start, rest, delimiter);
      buffer[end] := NUL;
      context, rest := end + 1, After(rest, delimiter);
    } else {
      HoldsFurtherOn(buffer[..], start, rest, |rest|);
      context, rest := end, "";
    }
  }

  method Copied(s: string) returns (buffer: array<char>)
    requires NulFree(s)
    ensures fresh(buffer) && Holds(buffer[..], 0, s)
  {
    buffer := new char[|s| + 1] (i requires 0 <= i < |s| + 1 => if i < |s| then s[i] else NUL);
    assert buffer[..][0..] == s + [NUL];
  }

  method AddExpandedPaths(sources: seq<string>, paths: string, delimiter: char, resolve: Resolver)
    returns (after: seq<string>)
    requires delimiter != NUL && NulFree(paths)
    ensures after == sources + Resolved(Tokens(paths, delimiter), resolve)
  {
    after := sources;
    var buffer := Copied(paths);
    ghost var rest := paths;
    var token, context;
    token, context, rest := NextToken(buffer, 0, delimiter, rest);
    ghost var left := Tokens(paths, delimiter);
    ghost var whole := sources + Resolved(left, resolve);
    while token.Some?
      invariant fresh(buffer) && Holds(buffer[..], context, rest)
      invariant left == if token.None? then [] else [token.value] + Tokens(rest, delimiter)
      invariant after + Resolved(left, resolve) == whole
      decreases |rest|, token.Some?
    {
      left := Tokens(rest, delimiter);
      ResolvedCons(token.value, left, resolve);
      after := AddExpandedPath(after, token.value, resolve, left);
      token, context, rest := NextToken(buffer, context, delimiter, rest);
    }
    assert after + [] == after;
  }

  method AddExpandedPath(sources: seq<string>, path: string, resolve: Resolver, ghost left: seq<string>)
    returns (after: seq<string>)
    ensures after == sources + Source(path, resolve)
    ensures after + Resolved(left, resolve) == sources + (Source(path, resolve) + Resolved(left, resolve))
  {
    Associative(sources, Source(path, resolve), Resolved(left, resolve));
    after := sources;
    var source := resolve(path);
    if source.Some? {
      after := after + [source.value];
    }
  }

  /** The getline loop of the other platform. */
  method AddParts(sources: seq<string>, value: string, delimiter: char, resolve: Resolver)
    returns (after: seq<string>)
    ensures after == sources + Resolved(Parts(value, delimiter), resolve)
  {
    after := sources;
    var stream := value;
    ghost var left, whole := Parts(value, delimiter), sources + Resolved(Parts(value, delimiter), resolve);
    while stream != ""
      invariant left == Parts(stream, delimiter) && after + Resolved(left, resolve) == whole
      decreases |stream|
    {
      var part := stream[..IndexOf(stream, delimiter)];
      stream := After(stream, delimiter);
      assert left == [part] + Parts(stream, delimiter);
      left := Parts(stream, delimiter);
      ResolvedCons(part, left, resolve);
      Associative(after, Source(part, resolve), Resolved(left, resolve));
      var path := resolve(part);
      if path.Some? {
        after := after + [path.value];
      } else {
        assert after + [] == after;
      }
    }
    assert after + [] == after;
  }

  // ---------- the environment block ----------

  /** Each variable with a NUL behind it, and one more NUL. */
  function Block(variables: seq<string>): seq<char> {
    if variables == [] then [NUL] else variables[0] + [NUL] + Block(variables[1..])
  }

  predicate IsVariable(v: string) {
    v != "" && NulFree(v)
  }

  /** Variables whose name starts with the prefix; how letters compare is left to `same`. */
  predicate Selected(v: string, prefix: string, same: (string, string) -> bool) {
    |v| > |prefix| && same(v[..|prefix|], prefix)
  }

  /** A selected variable's value can be found. */
  predicate HasValue(v: string, prefix: string, same: (string, string) -> bool) {
    Selected(v, prefix, same) ==> NameValueSeparator in v
  }

  ghost predicate AllHaveValues(variables: seq<string>, prefix: string, same: (string, string) -> bool) {
    forall k :: 0 <= k < |variables| ==> HasValue(variables[k], prefix, same)
  }

  function SourcesOfOne(v: string, prefix: string, same: (string, string) -> bool, delimiter: char, resolve: Resolver)
    : seq<string>
  {
    if Selected(v, prefix, same) then Resolved(Tokens(After(v, NameValueSeparator), delimiter), resolve) else []
  }

  function SourcesOf(variables: seq<string>, prefix: string, same: (string, string) -> bool, delimiter: char,
      resolve: Resolver)
    : seq<string>
  {
    if variables == [] then []
    else
      SourcesOfOne(variables[0], prefix, same, delimiter, resolve)
      + SourcesOf(variables[1..], prefix, same, delimiter, resolve)
  }

  ghost function SourcesOrNot(variables: seq<string>, prefix: string, same: (string, string) -> bool, delimiter: char,
      resolve: Resolver)
    : Behaviour<seq<string>>
  {
    if AllHaveValues(variables, prefix, same) then Defined(SourcesOf(variables, prefix, same, delimiter, resolve))
    else Undefined
  }

  /** At place `p` the block goes on with these variables. */
  ghost predicate Continues(block: seq<char>, p: nat, variables: seq<string>, behind: seq<char>) {
    && p < |block| && block[p..] == Block(variables) + behind
    && forall k :: 0 <= k < |variables| ==> IsVariable(variables[k])
  }

  lemma {:induction false} BlockStep(block: seq<char>, p: nat, variables: seq<string>, behind: seq<char>)
    requires Continues(block, p, variables, behind)
    ensures block[p] == NUL <==> variables == []
    ensures variables != [] ==>
      var n := |variables[0]|;
      && p + n + 1 < |block| && block[p..p + n] == variables[0] && block[p + n] == NUL
      && Continues(block, p + n + 1, variables[1..], behind)
  {
    var text := Block(variables) + behind;
    assert block[p] == text[0];
    if variables != [] {
      var v, rest := variables[0], Block(variables[1..]) + behind;
      assert text == v + [NUL] + rest;
      assert v[0] in v;
      assert block[p..p + |v|] == text[..|v|] == v;
      assert block[p + |v|] == text[|v|];
      assert block[p + |v| + 1..] == text[|v| + 1..] == rest;
      assert rest[0] == Block(variables[1..])[0];
    }
  }

  /** wcslen. */
  method StringLength(block: seq<char>, p: nat, ghost v: string) returns (n: nat)
    requires p + |v| < |block| && block[p..p + |v|] == v && block[p + |v|] == NUL && NulFree(v)
    ensures n == |v|
  {
    n := 0;
    CharacterAt(block, p, v, 0);
    while block[p + n] != NUL
      invariant n <= |v| && (block[p + n] == NUL <==> n == |v|)
      decreases |v| - n
    {
      n := n + 1;
      CharacterAt(block, p, v, n);
    }
  }

  lemma {:induction false} CharacterAt(block: seq<char>, p: nat, v: string, k: nat)
    requires p + |v| < |block| && block[p..p + |v|] == v && block[p + |v|] == NUL && NulFree(v) && k <= |v|
    ensures block[p + k] == NUL <==> k == |v|
  {
    if k < |v| {
      assert v[k] in v && block[p + k] == block[p..p + |v|][k];
    }
  }

  lemma {:induction false} FirstOf(sources: seq<string>, left: seq<string>, prefix: string,
      same: (string, string) -> bool, delimiter: char, resolve: Resolver)
    requires left != []
    ensures sources + SourcesOf(left, prefix, same, delimiter, resolve) ==
      sources + SourcesOfOne(left[0], prefix, same, delimiter, resolve)
      + SourcesOf(left[1..], prefix, same, delimiter, resolve)
  {
    Associative(sources, SourcesOfOne(left[0], prefix, same, delimiter, resolve),
      SourcesOf(left[1..], prefix, same, delimiter, resolve));
  }

  /** The walk visits exactly the variables of the block, in order, and reads nothing but the
      block, whatever may be behind it, if and only if every selected variable has a value.
      Otherwise it reads through a wild pointer at the first that has none. */
  method GetFromEnvironment(block: seq<char>, prefix: string, same: (string, string) -> bool, delimiter: char,
                            resolve: Resolver, ghost variables: seq<string>, ghost behind: seq<char>)
    returns (sources: Behaviour<seq<string>>, visited: seq<string>)
    requires delimiter != NUL && block == Block(variables) + behind
    requires forall k :: 0 <= k < |variables| ==> IsVariable(variables[k])
    ensures sources == SourcesOrNot(variables, prefix, same, delimiter, resolve)
    ensures sources.Defined? <==> AllHaveValues(variables, prefix, same)
    ensures sources.Defined? ==> visited == variables
    ensures sources.Undefined? ==>
      var n := |visited|;
      && 0 < n <= |variables| && visited == variables[..n]
      && !HasValue(visited[n - 1], prefix, same) && AllHaveValues(visited[..n - 1], prefix, same)
  {
    var found: seq<string> := [];
    visited := [];
    var p: nat := 0;
    ghost var left, total := variables, SourcesOf(variables, prefix, same, delimiter, resolve);
    assert block[0..] == block;
    BlockStep(block, 0, left, behind);
    while block[p] != NUL
      invariant Continues(block, p, left, behind)
      invariant block[p] == NUL <==> left == []
      invariant visited + left == variables && AllHaveValues(visited, prefix, same)
      invariant found + SourcesOf(left, prefix, same, delimiter, resolve) == total
      decreases |left|
    {
      var variable;
      variable, p := ReadVariable(block, p, left, behind);
      FirstOf(found, left, prefix, same, delimiter, resolve);
      var more := AddVariable(found, variable, prefix, same, delimiter, resolve);
      ghost var before := visited;
      visited := Visit(visited, variable, left);
      if more.Undefined? {
        assert visited[..|visited| - 1] == before;
        assert variables[|before|] == variable;
        return Undefined, visited;
      }
      found, left := more.value, left[1..];
    }
    assert found + [] == found && visited + [] == visited;
    sources := Defined(found);
  }

  method ReadVariable(block: seq<char>, p: nat, ghost left: seq<string>, ghost behind: seq<char>)
    returns (variable: string, next: nat)
    requires Continues(block, p, left, behind) && left != []
    ensures variable == left[0] && IsVariable(variable)
    ensures Continues(block, next, left[1..], behind) && (block[next] == NUL <==> left[1..] == [])
  {
    BlockStep(block, p, left, behind);
    var n := StringLength(block, p, left[0]);
    variable, next := block[p..p + n], p + n + 1;
    BlockStep(block, next, left[1..], behind);
  }

  method Visit(visited: seq<string>, variable: string, ghost left: seq<string>) returns (after: seq<string>)
    requires left != [] && variable == left[0]
    ensures after == visited + [variable] && after + left[1..] == visited + left
  {
    after := visited + [variable];
  }

  /** Into the variable, null, or what arithmetic on null gives. */
  datatype Pointer = Null | At(offset: nat) | Wild

  function PlusOne(p: Pointer): Pointer {
    if p.At? then At(p.offset + 1) else Wild
  }

  /** wcsstr, for a text of one character. */
  function Find(s: string, c: char): Pointer {
    if IndexOf(s, c) < |s| then At(IndexOf(s, c)) else Null
  }

  /** A variable with the prefix adds the paths of its value.  One is added to the place of the
      separator before it is tested for null, and a null has become something else by then. */
  method AddVariable(sources: seq<string>, variable: string, prefix: string, same: (string, string) -> bool,
                     delimiter: char, resolve: Resolver)
    returns (after: Behaviour<seq<string>>)
    requires delimiter != NUL && IsVariable(variable)
    ensures after ==
      if !HasValue(variable, prefix, same) then Undefined
      else Defined(sources + SourcesOfOne(variable, prefix, same, delimiter, resolve))
  {
    var all := sources;
    if |variable| > |prefix| && same(variable[..|prefix|], prefix) {
      FoundIff(variable, NameValueSeparator);
      var value := PlusOne(Find(variable, NameValueSeparator));
      if value != Null {
        if value.Wild? {
          return Undefined;
        }
        all := AddExpandedPaths(sources, variable[value.offset..], delimiter, resolve);
      }
    }
    assert sources + [] == sources;
    after := Defined(all);
  }

  lemma {:induction false} FoundIff(s: string, c: char)
    ensures c in s <==> IndexOf(s, c) < |s|
  {
    assert s[..|s|] == s;
  }

  // ---------- the other platform ----------

  function UnixSourcesOfOne(v: string, prefix: string, delimiter: char, resolve: Resolver): seq<string> {
    if prefix <= v && NameValueSeparator in v then Resolved(Parts(After(v, NameValueSeparator), delimiter), resolve)
    else []
  }

  function UnixSourcesOf(variables: seq<string>, prefix: string, delimiter: char, resolve: Resolver): seq<string> {
    if variables == [] then []
    else
      UnixSourcesOfOne(variables[0], prefix, delimiter, resolve)
      + UnixSourcesOf(variables[1..], prefix, delimiter, resolve)
  }

  method GetFromEnviron(environ: seq<string>, prefix: string, delimiter: char, resolve: Resolver)
    returns (sources: seq<string>)
    ensures sources == UnixSourcesOf(environ, prefix, delimiter, resolve)
  {
    sources := [];
    var left := environ;
    ghost var total := UnixSourcesOf(environ, prefix, delimiter, resolve);
    while left != []
      invariant sources + UnixSourcesOf(left, prefix, delimiter, resolve) == total
      decreases |left|
    {
      Associative(sources, UnixSourcesOfOne(left[0], prefix, delimiter, resolve),
        UnixSourcesOf(left[1..], prefix, delimiter, resolve));
      sources := AddUnixVariable(sources, left[0], prefix, delimiter, resolve);
      left := left[1..];
    }
    assert sources + [] == sources;
  }

  /** Here a variable without a separator is skipped. */
  method AddUnixVariable(sources: seq<string>, variable: string, prefix: string, delimiter: char, resolve: Resolver)
    returns (after: seq<string>)
    ensures after == sources + UnixSourcesOfOne(variable, prefix, delimiter, resolve)
  {
    FoundIff(variable, NameValueSeparator);
    var value := Find(variable, NameValueSeparator);
    if prefix <= variable && value != Null {
      assert variable[PlusOne(value).offset..] == After(variable, NameValueSeparator);
      after := AddParts(sources, variable[PlusOne(value).offset..], delimiter, resolve);
    } else {
      after := sources;
      assert sources + [] == sources;
    }
  }

  /** Where names compare by their letters and the empty path is not usable, both platforms
      find the same sources if and only if every selected variable has a value. */
  lemma {:induction false} PlatformsAgreeIff(variables: seq<string>, prefix: string, same: (string, string) -> bool,
      delimiter: char, resolve: Resolver)
    requires resolve("").None? && '=' !in prefix
    requires forall a, b :: same(a, b) <==> a == b
    ensures SourcesOrNot(variables, prefix, same, delimiter, resolve)
      == Defined(UnixSourcesOf(variables, prefix, delimiter, resolve))
      <==> AllHaveValues(variables, prefix, same)
  {
    if AllHaveValues(variables, prefix, same) {
      SameSources(variables, prefix, same, delimiter, resolve);
    }
  }

  lemma {:induction false} SameSources(variables: seq<string>, prefix: string, same: (string, string) -> bool,
      delimiter: char, resolve: Resolver)
    requires resolve("").None? && NameValueSeparator !in prefix
    requires forall a, b :: same(a, b) <==> a == b
    requires AllHaveValues(variables, prefix, same)
    ensures SourcesOf(variables, prefix, same, delimiter, resolve)
      == UnixSourcesOf(variables, prefix, delimiter, resolve)
  {
    if variables != [] {
      var v := variables[0];
      assert HasValue(v, prefix, same);
      BothPlatformsAgree(After(v, NameValueSeparator), delimiter, resolve);
      SelectedOnBoth(v, prefix, same);
      SameSources(variables[1..], prefix, same, delimiter, resolve);
    }
  }

  lemma {:induction false} SelectedOnBoth(v: string, prefix: string, same: (string, string) -> bool)
    requires NameValueSeparator !in prefix && HasValue(v, prefix, same)
    requires forall a, b :: same(a, b) <==> a == b
    ensures Selected(v, prefix, same) <==> prefix <= v && NameValueSeparator in v
  {
    if prefix <= v && NameValueSeparator in v {
      assert v != prefix;
      assert v[..|prefix|] == prefix;
    }
  }

  /** A name, an `=` and paths: a variable that is selected gives the usable ones of these paths,
      on either platform, and any other gives none. */
  lemma {:induction false} PathsBehindTheName(v: string, name: string, parts: seq<string>, prefix: string,
      same: (string, string) -> bool, delimiter: char, resolve: Resolver)
    requires v == name + ['='] + Join(parts, delimiter) && '=' !in name && ArePaths(parts, delimiter)
    ensures SourcesOrNot([v], prefix, same, delimiter, resolve) ==
      Defined(if |v| > |prefix| && same(v[..|prefix|], prefix) then Resolved(parts, resolve) else [])
    ensures UnixSourcesOf([v], prefix, delimiter, resolve) ==
      if prefix <= v then Resolved(parts, resolve) else []
  {
    FirstAt(v, name, '=', Join(parts, delimiter));
    JoinedIsReadBack(parts, delimiter);
    assert v[|name|] == '=';
    OneVariable(v, prefix, same, delimiter, resolve);
  }

  lemma {:induction false} OneVariable(v: string, prefix: string, same: (string, string) -> bool, delimiter: char,
      resolve: Resolver)
    ensures SourcesOf([v], prefix, same, delimiter, resolve) == SourcesOfOne(v, prefix, same, delimiter, resolve)
    ensures UnixSourcesOf([v], prefix, delimiter, resolve) == UnixSourcesOfOne(v, prefix, delimiter, resolve)
    ensures AllHaveValues([v], prefix, same) <==> HasValue(v, prefix, same)
  {
    assert [v][1..] == [];
    var one := SourcesOfOne(v, prefix, same, delimiter, resolve);
    var other := UnixSourcesOfOne(v, prefix, delimiter, resolve);
    assert one + [] == one && other + [] == other;
    assert AllHaveValues([v], prefix, same) ==> HasValue([v][0], prefix, same);
  }

  /** The variables of a block give their sources one after another. */
  lemma {:induction false} SourcesInPlace(before: seq<string>, behind: seq<string>, prefix: string,
      same: (string, string) -> bool, delimiter: char, resolve: Resolver)
    ensures SourcesOf(before + behind, prefix, same, delimiter, resolve) ==
      SourcesOf(before, prefix, same, delimiter, resolve) + SourcesOf(behind, prefix, same, delimiter, resolve)
    ensures UnixSourcesOf(before + behind, prefix, delimiter, resolve) ==
      UnixSourcesOf(before, prefix, delimiter, resolve) + UnixSourcesOf(behind, prefix, delimiter, resolve)
  {
    if before == [] {
      assert before + behind == behind;
    } else {
      var rest := before[1..];
      assert (before + behind)[1..] == rest + behind;
      SourcesInPlace(rest, behind, prefix, same, delimiter, resolve);
      Associative(SourcesOfOne(before[0], prefix, same, delimiter, resolve),
        SourcesOf(rest, prefix, same, delimiter, resolve), SourcesOf(behind, prefix, same, delimiter, resolve));
      Associative(UnixSourcesOfOne(before[0], prefix, delimiter, resolve),
        UnixSourcesOf(rest, prefix, delimiter, resolve), UnixSourcesOf(behind, prefix, delimiter, resolve));
    }
  }

  /** A variable that is no longer than the prefix is passed over, even if it is the prefix. */
  lemma {:induction false} BarePrefixIsPassedOver(v: string, prefix: string, same: (string, string) -> bool,
      delimiter: char, resolve: Resolver)
    requires |v| <= |prefix|
    ensures SourcesOrNot([v], prefix, same, delimiter, resolve) == Defined([])
  {
    OneVariable(v, prefix, same, delimiter, resolve);
  }

  /** The least block at which the two part: one selected variable without a separator. */
  lemma {:induction false} VariableWithoutValue(v: string, prefix: string, same: (string, string) -> bool,
      delimiter: char, resolve: Resolver)
    requires |v| > |prefix| && same(v[..|prefix|], prefix) && '=' !in v
    ensures SourcesOrNot([v], prefix, same, delimiter, resolve) == Undefined
    ensures UnixSourcesOf([v], prefix, delimiter, resolve) == []
  {
    OneVariable(v, prefix, same, delimiter, resolve);
  }
}
