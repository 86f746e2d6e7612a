/** `get_rules` (gfwlist2acl.py:39-59): normalise one regular expression and
    cut it into ACL rules the proxy can read. The `re` calls of the source are
    written out by hand, each as the string function it amounts to on text
    without line breaks (every line the driver passes in has been stripped). */
module Splitter {
  import opened Text

  /** A normalised rule longer than this is considered for splitting (line 46). */
  const SplitThreshold := 80
  /** Alternatives per split rule (line 52). */
  const ChunkSize := 10
  /** Rules of this length or longer are dropped (line 58). */
  const MaxRuleLength := 500

  // ---------------------------------------------------------------------
  // Line 40: every match of `\^?https?\??://` becomes `^`.

  /** Length of the match of `https?\??://` at the head of `s`, or 0 if it
      does not match there. The optional `s` and `?` are taken greedily;
      giving either back never helps, because the character after it is
      then neither `?` nor `:`, so no backtracking is needed. */
  function SchemeLen(s: string): (n: nat)
    ensures n <= |s|
    ensures n > 0 ==> 7 <= n <= 9 && s[..4] == "http" && s[n - 3..n] == "://"
  {
    if 4 <= |s| && s[0] == 'h' && s[1] == 't' && s[2] == 't' && s[3] == 'p' then
      var i := if 4 < |s| && s[4] == 's' then 5 else 4;
      var j := if i < |s| && s[i] == '?' then i + 1 else i;
      if j + 3 <= |s| && s[j] == ':' && s[j + 1] == '/' && s[j + 2] == '/' then j + 3 else 0
    else 0
  }

  /** `https?\??://` matches exactly the four texts `http://`, `https://`,
      `http?://` and `https?://`, and SchemeLen is the length of the one
      at the head of `s`. */
  lemma SchemeLenMatches(s: string)
    ensures SchemeLen(s) > 0 <==> (StartsWith(s, "http://") || StartsWith(s, "https://")
                                   || StartsWith(s, "http?://") || StartsWith(s, "https?://"))
    ensures SchemeLen(s) > 0 ==> s[..SchemeLen(s)] in {"http://", "https://", "http?://", "https?://"}
  {
  }

  /** The characters a scheme match can consist of. */
  predicate IsSchemeChar(c: char) {
    c == 'h' || c == 't' || c == 'p' || c == 's' || c == '?' || c == ':' || c == '/'
  }

  /** A scheme match consists of scheme characters only. */
  lemma SchemeChars(s: string, i: nat)
    requires i < SchemeLen(s)
    ensures IsSchemeChar(s[i])
  {
  }

  /** Whether a scheme matches depends only on the characters it spans. */
  lemma SchemePrefixDetermines(x: string, y: string)
    requires SchemeLen(x) > 0
    requires SchemeLen(x) <= |y| && y[..SchemeLen(x)] == x[..SchemeLen(x)]
    ensures SchemeLen(y) == SchemeLen(x)
  {
    var n := SchemeLen(x);
    assert forall i :: 0 <= i < n ==> y[i] == y[..n][i] == x[..n][i] == x[i];
  }

  /** No scheme match starts anywhere in `s`. */
  predicate NoScheme(s: string) {
    forall k :: 0 <= k < |s| ==> SchemeLen(s[k..]) == 0
  }

  /** Line 40: scanning left to right, an optional `^` followed by a scheme
      is replaced by `^`, and scanning resumes after the match. */
  function DropSchemes(s: string): (r: string)
    ensures |r| <= |s|
    decreases |s|
  {
    if s == [] then []
    else if s[0] == '^' && SchemeLen(s[1..]) > 0 then "^" + DropSchemes(s[1 + SchemeLen(s[1..])..])
    else if SchemeLen(s) > 0 then "^" + DropSchemes(s[SchemeLen(s)..])
    else [s[0]] + DropSchemes(s[1..])
  }

  /** Up to the first `^` it writes, DropSchemes copies its input. */
  lemma {:induction false} DropSchemesCopiesUntilCaret(t: string, m: nat)
    requires m <= |DropSchemes(t)|
    ensures (exists i :: 0 <= i < m && DropSchemes(t)[i] == '^')
            || (m <= |t| && DropSchemes(t)[..m] == t[..m])
    decreases |t|
  {
    if m > 0 {
      var d := DropSchemes(t);
      if !(t[0] == '^' && SchemeLen(t[1..]) > 0) && SchemeLen(t) == 0 {
        var d' := DropSchemes(t[1..]);
        assert d == [t[0]] + d';
        DropSchemesCopiesUntilCaret(t[1..], m - 1);
        if i :| 0 <= i < m - 1 && d'[i] == '^' {
          assert d[i + 1] == '^';
        } else {
          CopyStep(t, d', m);
        }
      } else {
        assert d[0] == '^';
      }
    }
  }

  /** The bookkeeping of one copied character. */
  lemma CopyStep(t: string, d': string, m: nat)
    requires 0 < m <= |t| && m - 1 <= |d'| && d'[..m - 1] == t[1..][..m - 1]
    ensures ([t[0]] + d')[..m] == t[..m]
  {
    assert ([t[0]] + d')[..m] == [t[0]] + d'[..m - 1];
    assert t[..m] == [t[0]] + t[1..][..m - 1];
  }

  /** A scheme-free text stays so with a character in front that does not
      start a scheme. */
  lemma NoSchemeCons(c: char, x: string)
    requires NoScheme(x) && SchemeLen([c] + x) == 0
    ensures NoScheme([c] + x)
  {
    forall k | 1 <= k <= |x| ensures SchemeLen(([c] + x)[k..]) == 0 {
      assert ([c] + x)[k..] == x[k - 1..];
    }
  }

  /** No `^` follows the first character of a scheme match. */
  lemma SchemeTailNoCaret(c: char, rest: string)
    requires SchemeLen([c] + rest) > 0
    ensures forall i :: 0 <= i < SchemeLen([c] + rest) - 1 ==> rest[i] != '^'
  {
    var r := [c] + rest;
    forall i | 0 <= i < SchemeLen(r) - 1 ensures rest[i] != '^' {
      SchemeChars(r, i + 1);
      assert r[i + 1] == rest[i];
    }
  }

  /** A character DropSchemes copies does not start a scheme in its output:
      such a scheme would lie before the first `^` written after it, where
      the output still equals the input. */
  lemma CopiedHeadStartsNoScheme(s: string)
    requires s != [] && SchemeLen(s) == 0
    ensures SchemeLen([s[0]] + DropSchemes(s[1..])) == 0
  {
    var rest := DropSchemes(s[1..]);
    var r := [s[0]] + rest;
    if SchemeLen(r) > 0 {
      var n := SchemeLen(r);
      SchemeTailNoCaret(s[0], rest);
      assert n - 1 <= |s[1..]| && rest[..n - 1] == s[1..][..n - 1] by {
        DropSchemesCopiesUntilCaret(s[1..], n - 1);
      }
      assert n <= |s| && r[..n] == s[..n] by {
        assert r[..n] == [s[0]] + rest[..n - 1];
        assert s[..n] == [s[0]] + s[1..][..n - 1];
      }
      SchemePrefixDetermines(r, s);
    }
  }

  /** After line 40 no scheme is left anywhere in the rule. */
  lemma {:induction false} DropSchemesLeavesNone(s: string)
    ensures NoScheme(DropSchemes(s))
    decreases |s|
  {
    if s != [] {
      if s[0] == '^' && SchemeLen(s[1..]) > 0 {
        DropSchemesLeavesNone(s[1 + SchemeLen(s[1..])..]);
        NoSchemeCons('^', DropSchemes(s[1 + SchemeLen(s[1..])..]));
      } else if SchemeLen(s) > 0 {
        DropSchemesLeavesNone(s[SchemeLen(s)..]);
        NoSchemeCons('^', DropSchemes(s[SchemeLen(s)..]));
      } else {
        DropSchemesLeavesNone(s[1..]);
        CopiedHeadStartsNoScheme(s);
        NoSchemeCons(s[0], DropSchemes(s[1..]));
      }
    }
  }

  /** A text free of schemes is left alone by line 40. */
  lemma {:induction false} DropSchemesKeepsSchemeFree(s: string)
    requires NoScheme(s)
    ensures DropSchemes(s) == s
    decreases |s|
  {
    if s != [] {
      assert SchemeLen(s[0..]) == 0 && s[0..] == s;
      assert SchemeLen(s[1..]) == 0 || |s| == 1;
      forall k | 0 <= k < |s| - 1 ensures SchemeLen(s[1..][k..]) == 0 {
        assert s[1..][k..] == s[k + 1..];
      }
      DropSchemesKeepsSchemeFree(s[1..]);
      assert s == [s[0]] + s[1..];
    }
  }

  /** Cutting off the end of a scheme-free text leaves it scheme-free. */
  lemma NoSchemePrefix(s: string, m: nat)
    requires NoScheme(s) && m <= |s|
    ensures NoScheme(s[..m])
  {
    forall k | 0 <= k < m ensures SchemeLen(s[..m][k..]) == 0 {
      if SchemeLen(s[..m][k..]) > 0 {
        var n := SchemeLen(s[..m][k..]);
        assert s[k..][..n] == s[..m][k..][..n];
        SchemePrefixDetermines(s[..m][k..], s[k..]);
      }
    }
  }

  /** Overwriting the last character with `$` keeps a text scheme-free. */
  lemma NoSchemeLastReplaced(s: string)
    requires NoScheme(s) && s != []
    ensures NoScheme(s[..|s| - 1] + "$")
  {
    var t := s[..|s| - 1] + "$";
    forall k | 0 <= k < |t| ensures SchemeLen(t[k..]) == 0 {
      if SchemeLen(t[k..]) > 0 {
        var n := SchemeLen(t[k..]);
        if k + n < |t| {
          assert s[k..][..n] == t[k..][..n];
          SchemePrefixDetermines(t[k..], s[k..]);
        }
      }
    }
  }

  // ---------------------------------------------------------------------
  // Line 41: `(\.\*)+$` is removed. The leftmost position from which the
  // rest is a nonempty run of `.*` wins, so the longest such run goes.

  /** Line 41: the rule with its maximal trailing run of `.*` removed. */
  function DropTrailingDotStars(s: string): (r: string)
    ensures |r| <= |s| && r == s[..|r|]
    ensures (|s| - |r|) % 2 == 0
    ensures forall k :: |r| <= k < |s| ==> s[k] == (if (k - |r|) % 2 == 0 then '.' else '*')
    ensures !EndsWith(r, ".*")
    decreases |s|
  {
    if EndsWith(s, ".*") then
      assert s[|s| - 2] == '.' && s[|s| - 1] == '*' by { assert s[|s| - 2..][0] == s[|s| - 2]; }
      DropTrailingDotStars(s[..|s| - 2])
    else s
  }

  // ---------------------------------------------------------------------
  // Line 42: a trailing `/` becomes `$`.

  function SlashToDollar(s: string): (r: string)
    ensures |r| == |s| && !EndsWith(r, "/")
    ensures forall i :: 0 <= i < |s| - 1 ==> r[i] == s[i]
    ensures EndsWith(s, "/") ==> r[|r| - 1] == '$'
    ensures !EndsWith(s, "/") ==> r == s
  {
    if EndsWith(s, "/") then s[..|s| - 1] + "$" else s
  }

  /** Lines 40-42 in order. The result holds no scheme, and neither ends
      with `.*` nor with `/`. */
  function Normalise(s: string): (r: string)
    ensures NoScheme(r)
    ensures !EndsWith(r, ".*") && !EndsWith(r, "/")
  {
    var a := DropSchemes(s);
    var b := DropTrailingDotStars(a);
    DropSchemesLeavesNone(s);
    NoSchemePrefix(a, |b|);
    if EndsWith(b, "/") then
      NoSchemeLastReplaced(b);
      assert (b[..|b| - 1] + "$")[|b| - 1] == '$';
      SlashToDollar(b)
    else
      SlashToDollar(b)
  }

  /** Normalising twice changes nothing more. */
  lemma NormaliseIdempotent(s: string)
    ensures Normalise(Normalise(s)) == Normalise(s)
  {
    var r := Normalise(s);
    DropSchemesKeepsSchemeFree(r);
    assert DropTrailingDotStars(r) == r;
  }

  // ---------------------------------------------------------------------
  // Line 46: `re.match(r'(.*)\((.*)\)(.*)', regexp)`. Both `.*` before a
  // literal are greedy, so the group closes at the last `)` and opens at the
  // last `(` in front of it.

  datatype Group = Group(prefix: string, body: string, suffix: string)

  /** Some `(` comes before some `)`. */
  predicate HasGroup(s: string) {
    exists i, j :: 0 <= i < j < |s| && s[i] == '(' && s[j] == ')'
  }

  function FindGroup(s: string): (g: Option<Group>)
    ensures g.Some? ==> s == g.value.prefix + "(" + g.value.body + ")" + g.value.suffix
    ensures g.Some? ==> '(' !in g.value.body && ')' !in g.value.suffix
    ensures g.Some? <==> HasGroup(s)
  {
    match LastIndexOf(s, ')')
    case None => None
    case Some(j) =>
      match LastIndexOf(s[..j], '(')
      case None =>
        None
      case Some(i) =>
        assert s == s[..i] + "(" + s[i + 1..j] + ")" + s[j + 1..];
        assert forall k :: i + 1 <= k < j ==> s[i + 1..j][k - i - 1] == s[..j][k];
        assert forall k :: j + 1 <= k < |s| ==> s[j + 1..][k - j - 1] == s[k];
        Some(Group(s[..i], s[i + 1..j], s[j + 1..]))
  }

  // ---------------------------------------------------------------------
  // Lines 49-55: the group's alternatives are cut into chunks of ten.

  /** The items in consecutive chunks of ChunkSize, the last one possibly
      shorter; chunk k is the Python slice `items[10k:10k+10]` the loop at
      line 53-54 takes. */
  function Chunks(items: seq<string>): (cs: seq<seq<string>>)
    ensures |cs| == (|items| + ChunkSize - 1) / ChunkSize
    ensures forall k :: 0 <= k < |cs| ==>
              cs[k] == items[ChunkSize * k .. Min(ChunkSize * k + ChunkSize, |items|)]
    decreases |items|
  {
    if items == [] then []
    else if |items| <= ChunkSize then [items]
    else
      var tail := Chunks(items[ChunkSize..]);
      ChunksCons(items, tail);
      [items[..ChunkSize]] + tail
  }

  /** The first chunk followed by the chunks of the rest are the chunks of
      the whole. */
  lemma ChunksCons(items: seq<string>, tail: seq<seq<string>>)
    requires |items| > ChunkSize
    requires |tail| == (|items| - ChunkSize + ChunkSize - 1) / ChunkSize
    requires forall k :: 0 <= k < |tail| ==>
               tail[k] == items[ChunkSize..][ChunkSize * k .. Min(ChunkSize * k + ChunkSize, |items| - ChunkSize)]
    ensures var cs := [items[..ChunkSize]] + tail;
            && |cs| == (|items| + ChunkSize - 1) / ChunkSize
            && forall k :: 0 <= k < |cs| ==>
                 cs[k] == items[ChunkSize * k .. Min(ChunkSize * k + ChunkSize, |items|)]
  {
    var cs := [items[..ChunkSize]] + tail;
    forall k | 0 <= k < |cs|
      ensures cs[k] == items[ChunkSize * k .. Min(ChunkSize * k + ChunkSize, |items|)]
    {
      if k > 0 {
        var lo := ChunkSize * (k - 1);
        var hi := Min(lo + ChunkSize, |items| - ChunkSize);
        assert cs[k] == tail[k - 1] == items[ChunkSize..][lo..hi];
        SliceOfDrop(items, ChunkSize, lo, hi);
      }
    }
  }

  /** The chunks hold the items, in order, nothing added or lost. */
  lemma {:induction false} ChunksFlatten(items: seq<string>)
    ensures Flatten(Chunks(items)) == items
    decreases |items|
  {
    if |items| > ChunkSize {
      ChunksFlatten(items[ChunkSize..]);
      assert Chunks(items) == [items[..ChunkSize]] + Chunks(items[ChunkSize..]);
      assert Chunks(items)[1..] == Chunks(items[ChunkSize..]);
      assert items == items[..ChunkSize] + items[ChunkSize..];
    } else if items != [] {
      assert Chunks(items) == [items];
      assert Chunks(items)[1..] == [];
      assert items + [] == items;
    }
  }

  /** One split rule: the original prefix and suffix around the chunk's
      alternatives (line 55). */
  function Wrap(g: Group, chunk: seq<string>): string
  {
    g.prefix + "(" + Join(chunk, '|') + ")" + g.suffix
  }

  /** One rule per chunk of the group's alternatives (lines 49-55). */
  function SplitRules(g: Group): (rs: seq<string>)
  {
    var cs := Chunks(Split(g.body, '|'));
    seq(|cs|, k requires 0 <= k < |cs| => Wrap(g, cs[k]))
  }

  /** The rules before the length filter (lines 44-55). */
  function Candidates(s: string): (c: seq<string>)
    ensures c != []
    ensures !(|s| > SplitThreshold && HasGroup(s)) ==> c == [s]
  {
    if |s| > SplitThreshold && FindGroup(s).Some? then SplitRules(FindGroup(s).value)
    else [s]
  }

  /** A long rule with a group becomes one rule per ten alternatives, each
      with the same prefix and suffix around at most ten of them, in order. */
  lemma CandidatesSplit(s: string)
    requires |s| > SplitThreshold && HasGroup(s)
    ensures var g := FindGroup(s).value;
            var items := Split(g.body, '|');
            && |Candidates(s)| == (|items| + ChunkSize - 1) / ChunkSize
            && |Candidates(s)| >= 1
            && Flatten(Chunks(items)) == items
            && forall k :: 0 <= k < |Candidates(s)| ==>
                 && Candidates(s)[k] == Wrap(g, Chunks(items)[k])
                 && Split(Join(Chunks(items)[k], '|'), '|') == Chunks(items)[k]
                 && 1 <= |Chunks(items)[k]| <= ChunkSize
  {
    var g := FindGroup(s).value;
    var items := Split(g.body, '|');
    var cs := Chunks(items);
    ChunksFlatten(items);
    forall k | 0 <= k < |cs|
      ensures Split(Join(cs[k], '|'), '|') == cs[k] && 1 <= |cs[k]| <= ChunkSize
    {
      assert ChunkSize * k < |items|;
      forall m | 0 <= m < |cs[k]| ensures '|' !in cs[k][m] {
        assert cs[k][m] == items[ChunkSize * k + m];
      }
      SplitJoin(cs[k], '|');
    }
  }

  /** A group of at most ten alternatives is rebuilt exactly as it was, so
      the rule is not changed by splitting. */
  lemma CandidatesFewAlternatives(s: string)
    requires FindGroup(s).Some? && |Split(FindGroup(s).value.body, '|')| <= ChunkSize
    ensures Candidates(s) == [s]
  {
    var g := FindGroup(s).value;
    var items := Split(g.body, '|');
    JoinSplit(g.body, '|');
    assert Chunks(items) == [items];
  }

  // ---------------------------------------------------------------------
  // Line 58: rules of MaxRuleLength characters or more are dropped.

  function KeepShort(rs: seq<string>): (kept: seq<string>)
    ensures |kept| <= |rs|
  {
    if rs == [] then []
    else (if |rs[0]| < MaxRuleLength then [rs[0]] else []) + KeepShort(rs[1..])
  }

  /** Filtering works element by element and keeps the order. */
  lemma {:induction false} KeepShortAppend(a: seq<string>, b: seq<string>)
    ensures KeepShort(a + b) == KeepShort(a) + KeepShort(b)
    decreases |a|
  {
    if a != [] {
      var h := if |a[0]| < MaxRuleLength then [a[0]] else [];
      var l, r := KeepShort(a[1..]), KeepShort(b);
      assert KeepShort(a + b) == h + (l + r) by {
        assert a + b == [a[0]] + (a[1..] + b);
        KeepShortCons(a[0], a[1..] + b);
        KeepShortAppend(a[1..], b);
      }
      assert KeepShort(a) == h + l by {
        assert a == [a[0]] + a[1..];
        KeepShortCons(a[0], a[1..]);
      }
      AppendAssoc(h, l, r);
    } else {
      assert a + b == b;
    }
  }

  /** The first rule is kept or dropped on its own. */
  lemma KeepShortCons(x: string, rest: seq<string>)
    ensures KeepShort([x] + rest) == (if |x| < MaxRuleLength then [x] else []) + KeepShort(rest)
  {
    assert ([x] + rest)[1..] == rest;
  }

  /** The kept rules are exactly the input's rules shorter than
      MaxRuleLength: nothing is added. */
  lemma {:induction false} KeepShortMembers(rs: seq<string>)
    ensures forall r :: r in KeepShort(rs) <==> r in rs && |r| < MaxRuleLength
    decreases |rs|
  {
    if rs != [] {
      KeepShortMembers(rs[1..]);
      assert rs == [rs[0]] + rs[1..];
    }
  }

  /** A single rule is kept exactly when it is shorter than MaxRuleLength. */
  lemma KeepShortOne(r: string)
    ensures KeepShort([r]) == (if |r| < MaxRuleLength then [r] else [])
  {
    assert [r][1..] == [];
  }

  /** What `get_rules` returns: only rules shorter than MaxRuleLength, and
      for a normalised rule of at most SplitThreshold characters that rule
      alone. */
  function Rules(regexp: string): (rs: seq<string>)
    ensures forall r :: r in rs ==> |r| < MaxRuleLength
    ensures |Normalise(regexp)| <= SplitThreshold ==> rs == [Normalise(regexp)]
  {
    KeepShortOne(Normalise(regexp));
    KeepShortMembers(Candidates(Normalise(regexp)));
    KeepShort(Candidates(Normalise(regexp)))
  }

  /** The loop of lines 51-55: one rule per ten alternatives. */
  method SplitGroup(g: Group) returns (ret: seq<string>)
    ensures ret == SplitRules(g)
  {
    var items := Split(g.body, '|');
    ghost var cs := Chunks(items);
    ret := [];
    var i := 0;
    while i < |items|
      invariant i == ChunkSize * |ret| && |ret| <= |cs|
      invariant forall k :: 0 <= k < |ret| ==> ret[k] == Wrap(g, cs[k])
    {
      var chunk := items[i..Min(i + ChunkSize, |items|)];
      ret := ret + [g.prefix + "(" + Join(chunk, '|') + ")" + g.suffix];
      i := i + ChunkSize;
    }
  }

  /** gfwlist2acl.py:39-59. */
  method GetRules(regexp: string) returns (rules: seq<string>)
    ensures rules == Rules(regexp)
    ensures forall r :: r in rules ==> |r| < MaxRuleLength
  {
    var s := Normalise(regexp);
    var ret := [s];
    var m := if |s| > SplitThreshold then FindGroup(s) else None;
    if m.Some? {
      ret := SplitGroup(m.value);
    }
    KeepShortMembers(ret);
    rules := KeepShort(ret);
  }
}
