/** The handful of Python `str` operations the scraper relies on: `strip()`,
    `in`, `split(sep)`, `sep.join(...)`, `replace(pat, "")`, `split()` and
    `startswith`, each with the contract Python documents for it. */
module Text {
  import opened Wrappers

  /** Python's `str.isspace()`: the code points `strip()` and `split()` remove. */
  predicate IsSpace(c: char)
  {
    ('\t' <= c <= '\r') || ('\U{1C}' <= c <= ' ') || c == '\U{85}' || c == '\U{A0}'
    || c == '\U{1680}' || ('\U{2000}' <= c <= '\U{200A}') || c == '\U{2028}'
    || c == '\U{2029}' || c == '\U{202F}' || c == '\U{205F}' || c == '\U{3000}'
  }

  predicate AllSpace(s: string)
  {
    forall i :: 0 <= i < |s| ==> IsSpace(s[i])
  }

  predicate NoSpace(s: string)
  {
    forall i :: 0 <= i < |s| ==> !IsSpace(s[i])
  }

  /** The number of whitespace characters `s` starts with. */
  function LeadingSpaces(s: string): (n: nat)
    ensures n <= |s|
    ensures forall i :: 0 <= i < n ==> IsSpace(s[i])
    ensures n == |s| || !IsSpace(s[n])
    decreases |s|
  {
    if s != [] && IsSpace(s[0]) then 1 + LeadingSpaces(s[1..]) else 0
  }

  /** The length of `s` without the whitespace it ends with. */
  function KeptLength(s: string): (n: nat)
    ensures n <= |s|
    ensures forall i :: n <= i < |s| ==> IsSpace(s[i])
    ensures n == 0 || !IsSpace(s[n - 1])
    decreases |s|
  {
    if s != [] && IsSpace(s[|s| - 1]) then KeptLength(s[..|s| - 1]) else |s|
  }

  /** `s.lstrip()`: the suffix of `s` left after its leading whitespace. */
  function TrimStart(s: string): (r: string)
    ensures |r| <= |s| && r == s[|s| - |r|..]
    ensures AllSpace(s[..|s| - |r|])
    ensures r == [] || !IsSpace(r[0])
  {
    s[LeadingSpaces(s)..]
  }

  /** `s.rstrip()`: the prefix of `s` left before its trailing whitespace. */
  function TrimEnd(s: string): (r: string)
    ensures |r| <= |s| && r == s[..|r|]
    ensures AllSpace(s[|r|..])
    ensures r == [] || !IsSpace(r[|r| - 1])
  {
    s[..KeptLength(s)]
  }

  /** `s.strip()`: empty exactly for an all-whitespace string, otherwise a
      text that neither starts nor ends with whitespace. */
  function Strip(s: string): (r: string)
    ensures |r| <= |s|
    ensures r == [] || (!IsSpace(r[0]) && !IsSpace(r[|r| - 1]))
    ensures r == [] <==> AllSpace(s)
  {
    StripEnds(s);
    TrimEnd(TrimStart(s))
  }

  /** The two trims leave nothing exactly when `s` is all whitespace, and
      otherwise a text with non-whitespace ends. */
  lemma StripEnds(s: string)
    ensures var r := TrimEnd(TrimStart(s));
            && (r == [] || (!IsSpace(r[0]) && !IsSpace(r[|r| - 1])))
            && (r == [] <==> AllSpace(s))
  {
    var t := TrimStart(s);
    var r := TrimEnd(t);
    if t != [] {
      assert s[|s| - |t|] == t[0];
    }
    if r == [] {
      assert s[..|s| - |t|] == s;
    } else {
      assert r[0] == t[0];
    }
  }

  /** Every character `Strip` keeps comes from `s`. */
  lemma StripWithin(s: string)
    ensures forall c :: c in Strip(s) ==> c in s
  {
    var t := TrimStart(s);
    var r := Strip(s);
    forall c | c in r
      ensures c in s
    {
      var i :| 0 <= i < |r| && r[i] == c;
      assert r[i] == t[i] == s[|s| - |t| + i];
    }
  }

  /** `TrimStart` removes exactly a whitespace prefix that is followed by a
      non-whitespace character or by nothing. */
  lemma TrimStartUnique(lead: string, rest: string)
    requires AllSpace(lead) && (rest == [] || !IsSpace(rest[0]))
    ensures TrimStart(lead + rest) == rest
  {
    var s := lead + rest;
    assert s[|lead|..] == rest;
  }

  /** `TrimEnd` removes exactly a whitespace suffix that is preceded by a
      non-whitespace character or by nothing. */
  lemma TrimEndUnique(r: string, trail: string)
    requires AllSpace(trail) && (r == [] || !IsSpace(r[|r| - 1]))
    ensures TrimEnd(r + trail) == r
  {
    var s := r + trail;
    assert s[..|r|] == r;
  }

  /** `Strip` is the one infix of `s` that is framed by whitespace on both
      sides and neither starts nor ends with whitespace itself. */
  lemma StripUnique(s: string, lead: string, r: string, trail: string)
    requires s == lead + r + trail && AllSpace(lead) && AllSpace(trail)
    requires r == [] || (!IsSpace(r[0]) && !IsSpace(r[|r| - 1]))
    ensures Strip(s) == r
  {
    if r == [] {
      assert s == (lead + trail) + [];
      TrimStartUnique(lead + trail, []);
      TrimEndUnique([], []);
    } else {
      assert s == lead + (r + trail);
      TrimStartUnique(lead, r + trail);
      TrimEndUnique(r, trail);
    }
  }

  /** `sub` occurs in `s` starting at index `i`. */
  predicate OccursAt(s: string, sub: string, i: nat)
  {
    i + |sub| <= |s| && s[i..i + |sub|] == sub
  }

  /** An occurrence fixes the characters it covers. */
  lemma OccursChars(s: string, sub: string, i: nat)
    requires OccursAt(s, sub, i)
    ensures forall k :: i <= k < i + |sub| ==> s[k] == sub[k - i]
  {
    forall k | i <= k < i + |sub| ensures s[k] == sub[k - i] {
      assert s[k] == s[i..i + |sub|][k - i];
    }
  }

  /** Occurrences in `s[1..]` are the occurrences in `s` shifted by one. */
  lemma OccursShift(s: string, sub: string, j: nat)
    requires s != []
    ensures OccursAt(s, sub, j + 1) <==> OccursAt(s[1..], sub, j)
  {
    if j + 1 + |sub| <= |s| {
      assert s[1..][j..j + |sub|] == s[j + 1..j + 1 + |sub|];
    }
  }

  /** `s.find(sub)`: the leftmost index at which `sub` occurs, if any. */
  function Find(s: string, sub: string): (r: Option<nat>)
    ensures r.Some? ==> OccursAt(s, sub, r.value)
    ensures forall j: nat :: (r.None? || j < r.value) ==> !OccursAt(s, sub, j)
    decreases |s|
  {
    if |s| < |sub| then None
    else if s[..|sub|] == sub then Some(0)
    else
      var r := Find(s[1..], sub);
      assert forall j: nat {:trigger OccursAt(s, sub, j)} :: j >= 1 ==> (OccursAt(s, sub, j) <==> OccursAt(s[1..], sub, j - 1)) by {
        forall j: nat | j >= 1
          ensures OccursAt(s, sub, j) <==> OccursAt(s[1..], sub, j - 1)
        {
          OccursShift(s, sub, j - 1);
        }
      }
      match r
      case None => None
      case Some(i) => Some(i + 1)
  }

  /** Python's `sub in s`. */
  predicate Contains(s: string, sub: string)
  {
    Find(s, sub).Some?
  }

  lemma ContainsChar(s: string, c: char)
    ensures Contains(s, [c]) <==> c in s
  {
    if c in s {
      var i :| 0 <= i < |s| && s[i] == c;
      assert s[i..i + 1] == [c];
      assert OccursAt(s, [c], i);
    }
    if Contains(s, [c]) {
      var i := Find(s, [c]).value;
      assert s[i..i + 1] == [c];
      assert s[i] == c;
    }
  }

  /** An occurrence inside a prefix is an occurrence in the whole string. */
  lemma OccursInPrefix(s: string, k: nat, sub: string, j: nat)
    requires k <= |s| && OccursAt(s[..k], sub, j)
    ensures OccursAt(s, sub, j)
  {
    assert s[..k][j..j + |sub|] == s[j..j + |sub|];
  }

  /** Nothing before the leftmost occurrence holds an occurrence. */
  lemma FindPrefixMisses(s: string, sub: string, i: nat)
    requires sub != [] && Find(s, sub) == Some(i)
    ensures !Contains(s[..i], sub)
  {
    var f := Find(s[..i], sub);
    if f.Some? {
      OccursInPrefix(s, i, sub, f.value);
    }
  }

  /** Python's `s.startswith(p)`. */
  predicate StartsWith(s: string, p: string)
  {
    |p| <= |s| && s[..|p|] == p
  }

  /** Python's `s.endswith(p)`. */
  predicate EndsWith(s: string, p: string)
  {
    |p| <= |s| && s[|s| - |p|..] == p
  }

  /** Python's `sep.join(parts)`. */
  function Join(parts: seq<string>, sep: string): string
  {
    if |parts| == 0 then ""
    else if |parts| == 1 then parts[0]
    else parts[0] + sep + Join(parts[1..], sep)
  }

  /** A join starts with the first piece and ends with the last. */
  lemma {:induction false} JoinEnds(parts: seq<string>, sep: string)
    requires parts != []
    ensures StartsWith(Join(parts, sep), parts[0])
    ensures EndsWith(Join(parts, sep), parts[|parts| - 1])
    decreases |parts|
  {
    if |parts| > 1 {
      JoinEnds(parts[1..], sep);
      var r := Join(parts[1..], sep);
      var last := parts[|parts| - 1];
      assert (parts[0] + sep + r)[..|parts[0]|] == parts[0];
      assert (parts[0] + sep + r)[|parts[0] + sep + r| - |last|..] == r[|r| - |last|..];
    }
  }

  /** Python's `s.split(sep)` for a non-empty separator: the pieces between the
      leftmost non-overlapping occurrences of `sep`. */
  function Split(s: string, sep: string): (parts: seq<string>)
    requires sep != []
    ensures |parts| >= 1
    ensures |parts| == 1 <==> !Contains(s, sep)
    ensures Join(parts, sep) == s
    decreases |s|
  {
    var f := Find(s, sep);
    if f.None? then [s]
    else
      var i := f.value;
      var tail := s[i + |sep|..];
      var rest := Split(tail, sep);
      JoinCons(s[..i], rest, sep);
      CutAround(s, i, sep);
      [s[..i]] + rest
  }

  /** A string is what precedes an occurrence, the occurrence, and what follows. */
  lemma CutAround(s: string, i: nat, sub: string)
    requires OccursAt(s, sub, i)
    ensures s == s[..i] + sub + s[i + |sub|..]
  {
    assert s[..i] + s[i..i + |sub|] == s[..i + |sub|];
    assert s[..i + |sub|] + s[i + |sub|..] == s;
  }

  /** Joining a piece in front of a non-empty list puts a separator between. */
  lemma JoinCons(a: string, rest: seq<string>, sep: string)
    requires rest != []
    ensures Join([a] + rest, sep) == a + sep + Join(rest, sep)
  {
    assert ([a] + rest)[1..] == rest;
  }

  /** Occurrences in `s[k..]` are the occurrences in `s` shifted by `k`. */
  lemma OccursDrop(s: string, sub: string, k: nat, j: nat)
    requires k <= |s|
    ensures OccursAt(s[k..], sub, j) <==> OccursAt(s, sub, j + k)
  {
    if j + k + |sub| <= |s| {
      assert s[k..][j..j + |sub|] == s[j + k..j + k + |sub|];
    }
  }

  /** A text without the separator splits into itself alone. */
  lemma SplitWhole(s: string, sep: string)
    requires sep != [] && !Contains(s, sep)
    ensures Split(s, sep) == [s]
  {
  }

  /** `parts[-1]`. */
  function Last(parts: seq<string>): string
    requires parts != []
  {
    parts[|parts| - 1]
  }

  /** `s.split(sep)[-1]`. */
  function LastPiece(s: string, sep: string): string
    requires sep != []
  {
    Last(Split(s, sep))
  }

  /** Cutting at the leftmost occurrence keeps the last piece. */
  lemma LastPieceCut(s: string, sep: string, f: nat)
    requires sep != [] && Find(s, sep) == Some(f)
    ensures LastPiece(s, sep) == LastPiece(s[f + |sep|..], sep)
  {
    SplitAt(s, sep, f);
    LastOfCons(s[..f], Split(s[f + |sep|..], sep));
  }

  /** Putting one element in front keeps the last element. */
  lemma LastOfCons(a: string, rest: seq<string>)
    requires rest != []
    ensures Last([a] + rest) == Last(rest)
  {
  }

  /** A split at the leftmost occurrence: the text before it, then the
      split of what follows it. */
  lemma SplitAt(s: string, sep: string, f: nat)
    requires sep != [] && Find(s, sep) == Some(f)
    ensures f + |sep| <= |s|
    ensures Split(s, sep) == [s[..f]] + Split(s[f + |sep|..], sep)
  {
  }

  /** Dropping from a concatenation within its first part. */
  lemma DropAppend(a: string, b: string, k: nat)
    requires k <= |a|
    ensures (a + b)[k..] == a[k..] + b
  {
  }

  /** No piece of a split holds the separator. */
  lemma {:induction false} SplitPiecesClean(s: string, sep: string)
    requires sep != []
    ensures forall k :: 0 <= k < |Split(s, sep)| ==> !Contains(Split(s, sep)[k], sep)
    decreases |s|
  {
    var f := Find(s, sep);
    if f.Some? {
      var i := f.value;
      FindPrefixMisses(s, sep, i);
      SplitPiecesClean(s[i + |sep|..], sep);
      var rest := Split(s[i + |sep|..], sep);
      assert Split(s, sep) == [s[..i]] + rest;
    }
  }

  /** Python's `s.replace(pat, "")`: never longer than `s`, and `s` itself
      when `pat` does not occur. */
  function RemoveAll(s: string, pat: string): (r: string)
    requires pat != []
    ensures |r| <= |s|
    ensures !Contains(s, pat) ==> r == s
  {
    JoinShorter(Split(s, pat), pat);
    Join(Split(s, pat), "")
  }

  /** Joining without a separator gives no longer a text than joining with one. */
  lemma {:induction false} JoinShorter(parts: seq<string>, sep: string)
    ensures |Join(parts, "")| <= |Join(parts, sep)|
    decreases |parts|
  {
    if |parts| > 1 {
      JoinShorter(parts[1..], sep);
    }
  }


  /** The longest whitespace-free prefix of `s`. */
  function TakeWord(s: string): (r: string)
    ensures |r| <= |s| && r == s[..|r|] && NoSpace(r)
    ensures |r| == |s| || IsSpace(s[|r|])
  {
    if s == [] || IsSpace(s[0]) then [] else [s[0]] + TakeWord(s[1..])
  }

  /** The first token is the one non-empty whitespace-free prefix that is
      followed by whitespace or by nothing. */
  lemma {:induction false} TakeWordUnique(s: string, w: string)
    requires |w| <= |s| && w == s[..|w|] && NoSpace(w)
    requires |w| == |s| || IsSpace(s[|w|])
    ensures TakeWord(s) == w
    decreases |s|
  {
    if w != [] {
      assert s[0] == w[0];
      TakeWordUnique(s[1..], w[1..]);
    }
  }

  /** The first token ends no later than any whitespace. */
  lemma {:induction false} TakeWordWithin(s: string, n: nat)
    requires n <= |s| && (n == |s| || IsSpace(s[n]))
    ensures |TakeWord(s)| <= n
    decreases |s|
  {
    if s != [] && !IsSpace(s[0]) {
      TakeWordWithin(s[1..], n - 1);
    }
  }

  /** Python's `s.split()[0]`; `None` where that raises `IndexError`. */
  function FirstWord(s: string): (r: Option<string>)
    ensures r.None? <==> AllSpace(s)
    ensures r.Some? ==> r.value != [] && NoSpace(r.value)
    ensures r.Some? ==> r.value == TakeWord(TrimStart(s))
  {
    var t := TrimStart(s);
    if t == [] then None
    else
      assert s[|s| - |t|] == t[0];
      Some(TakeWord(t))
  }

  /** `split()[0]` is the token that follows leading whitespace and ends at
      whitespace or at the end of the text. */
  lemma FirstWordOf(lead: string, w: string, rest: string)
    requires AllSpace(lead) && w != [] && NoSpace(w)
    requires rest == [] || IsSpace(rest[0])
    ensures FirstWord(lead + w + rest) == Some(w)
  {
    var s := lead + w + rest;
    assert s == lead + (w + rest);
    TrimStartUnique(lead, w + rest);
    assert (w + rest)[..|w|] == w;
    TakeWordUnique(w + rest, w);
  }

  /** Stripping first does not change `split()[0]`. */
  lemma FirstWordStrip(s: string)
    ensures FirstWord(Strip(s)) == FirstWord(s)
  {
    var t := TrimStart(s);
    var u := Strip(s);
    assert u == TrimEnd(t);
    assert [] + u == u;
    TrimStartUnique([], u);
    if t != [] && u != [] {
      var w := TakeWord(t);
      if |u| < |t| {
        assert IsSpace(t[|u|]) by { assert t[|u|..][0] == t[|u|]; }
      }
      TakeWordWithin(t, |u|);
      assert u[..|w|] == w;
      TakeWordUnique(u, w);
    }
  }

  /** Joining one more piece puts a separator in front of it. */
  lemma {:induction false} JoinSnoc(parts: seq<string>, x: string, sep: string)
    requires parts != []
    ensures Join(parts + [x], sep) == Join(parts, sep) + sep + x
    decreases |parts|
  {
    if |parts| > 1 {
      assert (parts + [x])[1..] == parts[1..] + [x];
      JoinSnoc(parts[1..], x, sep);
    }
  }

  /** Splitting on one character yields one more piece than the character has
      occurrences, so a string splits in exactly two on `c` if and only if
      `c` occurs in it exactly once. */
  lemma {:induction false} SplitCharCount(s: string, c: char)
    ensures |Split(s, [c])| == multiset(s)[c] + 1
    decreases |s|
  {
    match Find(s, [c])
    case None =>
      ContainsChar(s, c);
    case Some(i) =>
      var tail := s[i + 1..];
      CutAround(s, i, [c]);
      FindPrefixMisses(s, [c], i);
      ContainsChar(s[..i], c);
      assert multiset(s) == multiset(s[..i]) + multiset([c]) + multiset(tail);
      SplitCharCount(tail, c);
  }

  /** Joining pieces that do not contain `c` on `c` and splitting again gives
      the pieces back. */
  lemma {:induction false} SplitJoinChar(parts: seq<string>, c: char)
    requires parts != []
    requires forall i :: 0 <= i < |parts| ==> c !in parts[i]
    ensures Split(Join(parts, [c]), [c]) == parts
    decreases |parts|
  {
    var p := parts[0];
    ContainsChar(p, c);
    if |parts| == 1 {
    } else {
      var rest := Join(parts[1..], [c]);
      var s := p + [c] + rest;
      assert Join(parts, [c]) == s;
      assert Find(s, [c]) == Some(|p|) by {
        assert s[|p|..|p| + 1] == [c];
        assert OccursAt(s, [c], |p|);
      }
      assert s[|p| + 1..] == rest;
      SplitJoinChar(parts[1..], c);
    }
  }

  /** Removing a leading `pat` from a string that holds no further `pat`
      leaves that string unchanged. */
  lemma RemoveAllPrefix(pat: string, d: string)
    requires pat != [] && !Contains(d, pat)
    ensures RemoveAll(pat + d, pat) == d
  {
    var s := pat + d;
    assert s[..|pat|] == pat;
    assert OccursAt(s, pat, 0);
    assert Find(s, pat) == Some(0);
    assert s[|pat|..] == d;
    assert Split(s, pat) == [[]] + Split(d, pat);
    assert Split(d, pat) == [d];
    assert Split(s, pat) == [[], d];
    var e: string := [];
    assert RemoveAll(s, pat) == Join([e, d], "");
    assert [e, d][1..] == [d];
    assert Join([e, d], "") == e + "" + Join([d], "");
  }

  /** A string that contains `sub` contains its first character. */
  lemma ContainsHead(s: string, sub: string)
    requires sub != [] && Contains(s, sub)
    ensures sub[0] in s
  {
    var i := Find(s, sub).value;
    assert s[i] == s[i..i + |sub|][0];
  }

  /** Splitting the first piece off at the first occurrence of `c`. */
  lemma SplitFirst(a: string, c: char, rest: string)
    requires c !in a
    ensures Split(a + [c] + rest, [c])[0] == a
  {
    var s := a + [c] + rest;
    assert s[|a|..|a| + 1] == [c];
    assert OccursAt(s, [c], |a|);
    ContainsChar(a, c);
  }

  /** A string without `c` splits on `c` into itself alone. */
  lemma SplitNone(a: string, c: char)
    requires c !in a
    ensures Split(a, [c]) == [a]
  {
    ContainsChar(a, c);
  }
}
