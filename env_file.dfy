/**
 * The `.env` writer: `updateEnvFile` rewrites every `KEY=...` line whose key it is given,
 * keeps every other line (comments, blank lines, keys it is not given) where it was, and
 * appends the keys that no line mentioned. Values pass through `formatValue`, which
 * wraps them in double quotes when they hold whitespace, `#` or a quote.
 *
 * The file read and write are left out: the current content is a parameter (`None` when
 * the file cannot be read) and the text to be written is the result.
 */
module EnvFile {
  import opened Wrappers
  import opened JsText

  /** One entry of the `pairs` record, in the order `Object.entries` lists them. */
  datatype Pair = Pair(key: string, value: string)

  /** A record holds each key once. */
  predicate DistinctKeys(pairs: seq<Pair>) {
    forall i, j :: 0 <= i < j < |pairs| ==> pairs[i].key != pairs[j].key
  }

  /** Scanning helper: the first index at or after `i` whose character fails `p`, or `|s|`. */
  function Span(s: string, i: nat, p: char -> bool): (j: nat)
    requires i <= |s|
    ensures i <= j <= |s|
    decreases |s| - i
  {
    if i < |s| && p(s[i]) then Span(s, i + 1, p) else i
  }

  /** Every character the scan passes satisfies `p`. */
  lemma {:induction false} SpanPasses(s: string, i: nat, p: char -> bool)
    requires i <= |s|
    ensures forall q :: i <= q < Span(s, i, p) ==> p(s[q])
    decreases |s| - i
  {
    if i < |s| && p(s[i]) {
      SpanPasses(s, i + 1, p);
    }
  }

  /** The character the scan stops at, if any, fails `p`. */
  lemma {:induction false} SpanStops(s: string, i: nat, p: char -> bool)
    requires i <= |s|
    ensures Span(s, i, p) < |s| ==> !p(s[Span(s, i, p)])
    decreases |s| - i
  {
    if i < |s| && p(s[i]) {
      SpanStops(s, i + 1, p);
    }
  }

  /** The scan stops at `j` when every character from `i` up to `j` passes and the one at `j` does not. */
  lemma {:induction false} SpanAt(s: string, i: nat, j: nat, p: char -> bool)
    requires i <= j <= |s|
    requires forall q :: i <= q < j ==> p(s[q])
    requires j < |s| ==> !p(s[j])
    ensures Span(s, i, p) == j
    decreases j - i
  {
    if i < j {
      SpanAt(s, i + 1, j, p);
    }
  }

  /** The scan gets at least as far as `j` when every character from `i` up to `j` passes. */
  lemma {:induction false} SpanAtLeast(s: string, i: nat, j: nat, p: char -> bool)
    requires i <= j <= |s|
    requires forall q :: i <= q < j ==> p(s[q])
    ensures Span(s, i, p) >= j
    decreases j - i
  {
    if i < j {
      SpanAtLeast(s, i + 1, j, p);
    }
  }

  // ---------------------------------------------------------------------------
  // needsQuotes and formatValue

  /** The characters of the class `/\s|#|"|'/`. */
  predicate IsSpecial(c: char) {
    IsSpace(c) || c == '#' || c == '"' || c == '\''
  }

  /** `needsQuotes(v)`: the regular expression's scan over `v`, which succeeds exactly
      when some character of `v` is whitespace, `#`, `"` or `'`. */
  function NeedsQuotes(v: string): (b: bool)
    ensures b <==> exists i :: 0 <= i < |v| && IsSpecial(v[i])
  {
    if v == [] then false
    else if IsSpecial(v[0]) then true
    else
      var b := NeedsQuotes(v[1..]);
      assert forall i :: 0 < i < |v| ==> v[i] == v[1..][i - 1];
      b
  }

  /** `v.startsWith(q) && v.endsWith(q)`; a lone `q` satisfies both. */
  predicate QuotedWith(v: string, q: char) {
    |v| > 0 && v[0] == q && v[|v| - 1] == q
  }

  predicate AlreadyQuoted(v: string) {
    QuotedWith(v, '"') || QuotedWith(v, '\'')
  }

  /** `v.replace(/"/g, "\\\"")`: a backslash goes in front of every double quote. */
  function EscapeQuotes(v: string): (r: string)
    ensures r == [] <==> v == []
    ensures r != [] ==> r[0] != '"'
    ensures NoLineTerminator(v) ==> NoLineTerminator(r)
    ensures forall i :: 0 <= i < |r| && r[i] == '"' ==> 0 < i && r[i - 1] == '\\'
  {
    if v == [] then []
    else
      var head := if v[0] == '"' then ['\\', '"'] else [v[0]];
      var tail := EscapeQuotes(v[1..]);
      assert forall i :: 0 <= i < |tail| ==> (head + tail)[|head| + i] == tail[i];
      head + tail
  }

  /** The reading of an escaped value: every `\"` stands for `"`. */
  function UnescapeQuotes(s: string): string {
    if s == [] then []
    else if |s| >= 2 && s[0] == '\\' && s[1] == '"' then ['"'] + UnescapeQuotes(s[2..])
    else [s[0]] + UnescapeQuotes(s[1..])
  }

  /** Escaping loses nothing: reading the escaped text gives back the value. */
  lemma {:induction false} UnescapeEscape(v: string)
    ensures UnescapeQuotes(EscapeQuotes(v)) == v
  {
    if v != [] {
      UnescapeEscape(v[1..]);
      var tail := EscapeQuotes(v[1..]);
      if v[0] == '"' {
        assert EscapeQuotes(v) == ['\\', '"'] + tail;
        assert (['\\', '"'] + tail)[2..] == tail;
      } else {
        assert EscapeQuotes(v) == [v[0]] + tail;
        assert ([v[0]] + tail)[1..] == tail;
      }
    }
  }

  /**
   * `formatValue(v)`: the empty value and values that need no quoting, or that are already
   * wrapped in matching quotes, are written as they are; any other value is written in
   * double quotes with its double quotes escaped, so that the quoted text reads back as `v`.
   */
  function FormatValue(v: string): (r: string)
    ensures v == [] ==> r == []
    ensures r == v <==> (v == [] || AlreadyQuoted(v) || !NeedsQuotes(v))
    ensures r != v ==> QuotedWith(r, '"') && |r| >= 2 && UnescapeQuotes(r[1..|r| - 1]) == v
    ensures r != v ==> r[1..|r| - 1] == EscapeQuotes(v)
    ensures r != v ==> forall i :: 1 <= i < |r| - 1 && r[i] == '"' ==> r[i - 1] == '\\'
    ensures NoLineTerminator(v) ==> NoLineTerminator(r)
  {
    if v == [] then []
    else if AlreadyQuoted(v) then v
    else if !NeedsQuotes(v) then v
    else
      var e := EscapeQuotes(v);
      UnescapeEscape(v);
      QuotedParts(e);
      "\"" + e + "\""
  }

  /** The text between the quotes of `"e"` is `e`. */
  lemma QuotedParts(e: string)
    ensures var r := "\"" + e + "\"";
      r[1..|r| - 1] == e && forall i :: 1 <= i < |r| - 1 ==> r[i] == e[i - 1]
  {
    var r := "\"" + e + "\"";
    assert r[1..|e| + 1] == e;
  }

  /** Formatting twice is formatting once: a value `formatValue` quotes comes back already quoted. */
  lemma FormatValueIdempotent(v: string)
    ensures FormatValue(FormatValue(v)) == FormatValue(v)
  {
    var r := FormatValue(v);
    if r != v {
      assert AlreadyQuoted(r);
    }
  }

  // ---------------------------------------------------------------------------
  // The line pattern /^\s*([A-Z0-9_]+)\s*=\s*(.*)\s*$/i

  /** `[A-Z0-9_]` under the `i` flag. */
  predicate IsKeyChar(c: char) {
    'A' <= c <= 'Z' || 'a' <= c <= 'z' || '0' <= c <= '9' || c == '_'
  }

  predicate IsKeyName(k: string) {
    |k| > 0 && forall i :: 0 <= i < |k| ==> IsKeyChar(k[i])
  }

  predicate NotLineTerminator(c: char) {
    !IsLineTerminator(c)
  }

  /**
   * Whether `\s*(.*)\s*$` matches `rest`, the text after the `=`. Taking the leading
   * whitespace greedily loses nothing, after which `.` runs up to the first line
   * terminator and only whitespace may follow it.
   */
  predicate TailMatches(rest: string) {
    var d := Span(rest, 0, IsSpace);
    var e := Span(rest, d, NotLineTerminator);
    Span(rest, e, IsSpace) == |rest|
  }

  /** `rest` splits as `\s*`, then `.*`, then `\s*`, at `d` and `e`. */
  ghost predicate TailSplitsAt(rest: string, d: int, e: int) {
    0 <= d <= e <= |rest| && AllSpace(rest[..d]) && NoLineTerminator(rest[d..e]) && AllSpace(rest[e..])
  }

  ghost predicate TailMatchesRegex(rest: string) {
    exists d, e :: TailSplitsAt(rest, d, e)
  }

  /** The scan in TailMatches decides exactly the regular expression's match. */
  lemma TailMatchesSpec(rest: string)
    ensures TailMatches(rest) <==> TailMatchesRegex(rest)
  {
    if TailMatches(rest) {
      TailMatchesSound(rest);
    }
    if d', e' :| TailSplitsAt(rest, d', e') {
      TailMatchesComplete(rest, d', e');
    }
  }

  lemma TailMatchesSound(rest: string)
    requires TailMatches(rest)
    ensures TailSplitsAt(rest, Span(rest, 0, IsSpace), Span(rest, Span(rest, 0, IsSpace), NotLineTerminator))
  {
    var d := Span(rest, 0, IsSpace);
    var e := Span(rest, d, NotLineTerminator);
    SpanPasses(rest, 0, IsSpace);
    SpanPasses(rest, d, NotLineTerminator);
    SpanPasses(rest, e, IsSpace);
  }

  /** Any split that the pattern could use leaves only whitespace after the scanned `.*`. */
  lemma TailMatchesComplete(rest: string, d': int, e': int)
    requires TailSplitsAt(rest, d', e')
    ensures TailMatches(rest)
  {
    var d := Span(rest, 0, IsSpace);
    assert forall q :: 0 <= q < d' ==> IsSpace(rest[q]) by {
      assert forall q :: 0 <= q < d' ==> rest[..d'][q] == rest[q];
    }
    SpanAtLeast(rest, 0, d', IsSpace);
    var e := Span(rest, d, NotLineTerminator);
    if d < e' {
      assert forall q :: d <= q < e' ==> NotLineTerminator(rest[q]) by {
        assert forall q :: d' <= q < e' ==> rest[d'..e'][q - d'] == rest[q];
      }
      SpanAtLeast(rest, d, e', NotLineTerminator);
    }
    assert forall q :: e <= q < |rest| ==> IsSpace(rest[q]) by {
      assert forall q :: e' <= q < |rest| ==> rest[e'..][q - e'] == rest[q];
    }
    SpanAt(rest, e, |rest|, IsSpace);
  }

  /**
   * The key the pattern captures from `line`, if it matches. The captured key is the whole
   * run of key characters after the leading whitespace: backtracking to a shorter run would
   * leave a key character where `\s*=` is expected.
   */
  function LineKey(line: string): (r: Option<string>)
    ensures r.Some? ==> IsKeyName(r.value)
  {
    var a := Span(line, 0, IsSpace);
    var b := Span(line, a, IsKeyChar);
    var c := Span(line, b, IsSpace);
    SpanPasses(line, a, IsKeyChar);
    if a < b && c < |line| && line[c] == '=' && TailMatches(line[c + 1..]) then Some(line[a..b]) else None
  }

  /** `line` is `w1 key w2 = rest`, with `w1`, `w2` whitespace, cut at `a`, `b`, `c`, and `rest` matches the tail. */
  ghost predicate MatchesAt(line: string, a: int, b: int, c: int) {
    0 <= a < b <= c < |line| && AllSpace(line[..a]) && IsKeyName(line[a..b]) && AllSpace(line[b..c])
    && line[c] == '=' && TailMatchesRegex(line[c + 1..])
  }

  /** LineKey finds a key exactly when the whole pattern matches, and then the key is the captured group. */
  lemma LineKeySpec(line: string)
    ensures LineKey(line).Some? <==> exists a, b, c :: MatchesAt(line, a, b, c)
    ensures forall a, b, c :: MatchesAt(line, a, b, c) ==> LineKey(line) == Some(line[a..b])
  {
    if LineKey(line).Some? {
      LineKeyMatches(line);
    }
    forall a', b', c' | MatchesAt(line, a', b', c') ensures LineKey(line) == Some(line[a'..b']) {
      MatchedLineKey(line, a', b', c');
    }
  }

  lemma LineKeyMatches(line: string)
    requires LineKey(line).Some?
    ensures MatchesAt(line, Span(line, 0, IsSpace), Span(line, Span(line, 0, IsSpace), IsKeyChar),
                      Span(line, Span(line, Span(line, 0, IsSpace), IsKeyChar), IsSpace))
  {
    var a := Span(line, 0, IsSpace);
    var b := Span(line, a, IsKeyChar);
    var c := Span(line, b, IsSpace);
    SpanPasses(line, 0, IsSpace);
    SpanPasses(line, b, IsSpace);
    TailMatchesSpec(line[c + 1..]);
  }

  lemma MatchedLineKey(line: string, a: int, b: int, c: int)
    requires MatchesAt(line, a, b, c)
    ensures LineKey(line) == Some(line[a..b])
  {
    MatchPositions(line, a, b, c);
    TailMatchesSpec(line[c + 1..]);
  }

  /** Any way of matching the pattern cuts the line where the scans of LineKey stop. */
  lemma MatchPositions(line: string, a': int, b': int, c': int)
    requires MatchesAt(line, a', b', c')
    ensures a' == Span(line, 0, IsSpace)
    ensures b' == Span(line, a', IsKeyChar)
    ensures c' == Span(line, b', IsSpace)
  {
    assert forall q :: 0 <= q < a' ==> IsSpace(line[q]) by {
      assert forall q :: 0 <= q < a' ==> line[..a'][q] == line[q];
    }
    assert forall q :: a' <= q < b' ==> IsKeyChar(line[q]) by {
      assert forall q :: a' <= q < b' ==> line[a'..b'][q - a'] == line[q];
    }
    assert forall q :: b' <= q < c' ==> IsSpace(line[q]) by {
      assert forall q :: b' <= q < c' ==> line[b'..c'][q - b'] == line[q];
    }
    SpanAt(line, 0, a', IsSpace);
    SpanAt(line, a', b', IsKeyChar);
    SpanAt(line, b', c', IsSpace);
  }

  /** "Preserves comments": a line whose first non-blank character is `#` matches no key. */
  lemma CommentLineHasNoKey(w: string, text: string)
    requires AllSpace(w)
    ensures LineKey(w + "#" + text) == None
  {
    var line := w + "#" + text;
    SpanPasses(line, 0, IsSpace);
    assert line[|w|] == '#';
    assert forall q :: 0 <= q < |w| ==> line[q] == w[q];
  }

  /** A blank line matches no key. */
  lemma BlankLineHasNoKey(line: string)
    requires AllSpace(line)
    ensures LineKey(line) == None
  {
  }

  // ---------------------------------------------------------------------------
  // Rewriting lines

  /** `pairs[key]` when `key in pairs`. */
  function Lookup(pairs: seq<Pair>, key: string): (r: Option<string>)
    ensures r.Some? <==> exists i :: 0 <= i < |pairs| && pairs[i].key == key
    ensures r.Some? ==> Pair(key, r.value) in pairs
  {
    if pairs == [] then None
    else if pairs[0].key == key then Some(pairs[0].value)
    else Lookup(pairs[1..], key)
  }

  /** In a record, looking up an entry's key gives that entry's value. */
  lemma {:induction false} LookupEntry(pairs: seq<Pair>, i: int)
    requires DistinctKeys(pairs) && 0 <= i < |pairs|
    ensures Lookup(pairs, pairs[i].key) == Some(pairs[i].value)
  {
    if i > 0 {
      LookupEntry(pairs[1..], i - 1);
    }
  }

  /** The line written for `key`: `${key}=${formatValue(value)}`. */
  function Assignment(key: string, value: string): string {
    key + "=" + FormatValue(value)
  }

  /** One step of `lines.map(...)`: a matched line with a known key is rewritten, any other line is kept. */
  function RewriteLine(line: string, pairs: seq<Pair>): string {
    match LineKey(line)
    case None => line
    case Some(k) =>
      match Lookup(pairs, k)
      case None => line
      case Some(v) => Assignment(k, v)
  }

  /**
   * A line the pattern matches, with key `k = line[a..b]`, becomes `k=formatValue(pairs[k])`
   * when `k` is one of the pairs' keys and stays as it was otherwise; a line the pattern does
   * not match stays as it was.
   */
  lemma RewriteLineSpec(line: string, pairs: seq<Pair>)
    ensures forall a, b, c :: MatchesAt(line, a, b, c) ==>
      RewriteLine(line, pairs) ==
        (if Lookup(pairs, line[a..b]).Some? then Assignment(line[a..b], Lookup(pairs, line[a..b]).value) else line)
    ensures (forall a, b, c :: !MatchesAt(line, a, b, c)) ==> RewriteLine(line, pairs) == line
  {
    LineKeySpec(line);
  }

  /** The keys a line adds to `seen`. */
  function KeyHit(line: string, pairs: seq<Pair>): set<string> {
    match LineKey(line)
    case None => {}
    case Some(k) => if Lookup(pairs, k).Some? then {k} else {}
  }

  /** The set `seen` after the map has visited `lines`. */
  function MatchedKeys(lines: seq<string>, pairs: seq<Pair>): set<string>
    decreases |lines|
  {
    if lines == [] then {}
    else MatchedKeys(lines[..|lines| - 1], pairs) + KeyHit(lines[|lines| - 1], pairs)
  }

  /** A key is seen exactly when some line matches it and it is one of the pairs' keys. */
  lemma {:induction false} MatchedKeysSpec(lines: seq<string>, pairs: seq<Pair>, k: string)
    ensures k in MatchedKeys(lines, pairs) <==>
      Lookup(pairs, k).Some? && exists i {:trigger LineKey(lines[i])} :: 0 <= i < |lines| && LineKey(lines[i]) == Some(k)
    decreases |lines|
  {
    if lines != [] {
      var init := lines[..|lines| - 1];
      MatchedKeysSpec(init, pairs, k);
      if exists i {:trigger LineKey(lines[i])} :: 0 <= i < |lines| && LineKey(lines[i]) == Some(k) {
        var i :| 0 <= i < |lines| && LineKey(lines[i]) == Some(k);
        if i < |init| {
          assert init[i] == lines[i];
        }
      }
      if exists i {:trigger LineKey(init[i])} :: 0 <= i < |init| && LineKey(init[i]) == Some(k) {
        var i :| 0 <= i < |init| && LineKey(init[i]) == Some(k);
        assert lines[i] == init[i];
      }
    }
  }

  /** The entries the final loop appends: those whose key was not seen, in entry order. */
  function Unmatched(pairs: seq<Pair>, seen: set<string>): seq<Pair>
    decreases |pairs|
  {
    if pairs == [] then []
    else
      var last := pairs[|pairs| - 1];
      Unmatched(pairs[..|pairs| - 1], seen) + (if last.key in seen then [] else [last])
  }

  /**
   * Append-once: the appended entries are exactly the entries whose key was not seen, each
   * once, in the order of `pairs`.
   */
  lemma UnmatchedSpec(pairs: seq<Pair>, seen: set<string>)
    requires DistinctKeys(pairs)
    ensures forall p :: p in Unmatched(pairs, seen) <==> p in pairs && p.key !in seen
    ensures DistinctKeys(Unmatched(pairs, seen))
    ensures |Unmatched(pairs, seen)| <= |pairs|
    ensures forall x, y :: 0 <= x < y < |Unmatched(pairs, seen)| ==>
      exists i, j :: 0 <= i < j < |pairs| && pairs[i] == Unmatched(pairs, seen)[x] && pairs[j] == Unmatched(pairs, seen)[y]
  {
    UnmatchedMembers(pairs, seen);
    UnmatchedDistinct(pairs, seen);
    UnmatchedOrder(pairs, seen);
  }

  lemma {:induction false} UnmatchedMembers(pairs: seq<Pair>, seen: set<string>)
    ensures forall p :: p in Unmatched(pairs, seen) <==> p in pairs && p.key !in seen
    ensures |Unmatched(pairs, seen)| <= |pairs|
    decreases |pairs|
  {
    if pairs != [] {
      var init := pairs[..|pairs| - 1];
      assert pairs == init + [pairs[|pairs| - 1]];
      UnmatchedMembers(init, seen);
    }
  }

  lemma {:induction false} UnmatchedDistinct(pairs: seq<Pair>, seen: set<string>)
    requires DistinctKeys(pairs)
    ensures DistinctKeys(Unmatched(pairs, seen))
    decreases |pairs|
  {
    if pairs != [] {
      var init := pairs[..|pairs| - 1];
      var last := pairs[|pairs| - 1];
      UnmatchedDistinct(init, seen);
      UnmatchedMembers(init, seen);
      var u0 := Unmatched(init, seen);
      forall x | 0 <= x < |u0| ensures u0[x].key != last.key {
        assert u0[x] in u0;
        var i :| 0 <= i < |init| && init[i] == u0[x];
        assert pairs[i] == u0[x];
      }
    }
  }

  /** Every two entries of `u` appear, in the same order, in `pairs`. */
  ghost predicate InOrder(u: seq<Pair>, pairs: seq<Pair>) {
    forall x, y :: 0 <= x < y < |u| ==> Precedes(pairs, u[x], u[y])
  }

  /** `p` comes before `q` in `pairs`. */
  ghost predicate Precedes(pairs: seq<Pair>, p: Pair, q: Pair) {
    exists i, j :: 0 <= i < j < |pairs| && pairs[i] == p && pairs[j] == q
  }

  lemma {:induction false} UnmatchedOrder(pairs: seq<Pair>, seen: set<string>)
    ensures InOrder(Unmatched(pairs, seen), pairs)
    decreases |pairs|
  {
    if pairs != [] {
      var init := pairs[..|pairs| - 1];
      var last := pairs[|pairs| - 1];
      UnmatchedOrder(init, seen);
      UnmatchedMembers(init, seen);
      assert pairs == init + [last];
      OrderSnoc(init, last, Unmatched(init, seen), last.key !in seen);
    } else {
      assert Unmatched(pairs, seen) == [];
    }
  }

  /** Extending a subsequence by the next entry, or not, keeps it in the order of the entries. */
  lemma OrderSnoc(init: seq<Pair>, last: Pair, u0: seq<Pair>, add: bool)
    requires InOrder(u0, init)
    requires forall p :: p in u0 ==> p in init
    ensures InOrder(u0 + (if add then [last] else []), init + [last])
  {
    var u := u0 + (if add then [last] else []);
    forall x, y | 0 <= x < y < |u| ensures Precedes(init + [last], u[x], u[y]) {
      OrderSnocAt(init, last, u0, u, x, y);
    }
  }

  lemma OrderSnocAt(init: seq<Pair>, last: Pair, u0: seq<Pair>, u: seq<Pair>, x: int, y: int)
    requires InOrder(u0, init)
    requires forall p :: p in u0 ==> p in init
    requires u == u0 || u == u0 + [last]
    requires 0 <= x < y < |u|
    ensures Precedes(init + [last], u[x], u[y])
  {
    var pairs := init + [last];
    assert u[x] == u0[x];
    if y < |u0| {
      assert u[y] == u0[y];
      assert Precedes(init, u0[x], u0[y]);
      var i, j :| 0 <= i < j < |init| && init[i] == u0[x] && init[j] == u0[y];
      assert pairs[i] == u[x] && pairs[j] == u[y];
    } else {
      assert u[y] == last;
      assert u0[x] in u0;
      var i :| 0 <= i < |init| && init[i] == u0[x];
      assert pairs[i] == u[x] && pairs[|init|] == u[y];
    }
  }

  /** No entry is appended when every key was seen. */
  lemma {:induction false} UnmatchedEmpty(pairs: seq<Pair>, seen: set<string>)
    requires forall i :: 0 <= i < |pairs| ==> pairs[i].key in seen
    ensures Unmatched(pairs, seen) == []
    decreases |pairs|
  {
    if pairs != [] {
      UnmatchedEmpty(pairs[..|pairs| - 1], seen);
    }
  }

  /** `lines.map(...)`. */
  function Rewritten(lines: seq<string>, pairs: seq<Pair>): (r: seq<string>)
    ensures |r| == |lines|
    decreases |lines|
  {
    if lines == [] then []
    else Rewritten(lines[..|lines| - 1], pairs) + [RewriteLine(lines[|lines| - 1], pairs)]
  }

  /** The `i`-th line comes out of the map as line `i` rewritten. */
  lemma {:induction false} RewrittenAt(lines: seq<string>, pairs: seq<Pair>, i: int)
    requires 0 <= i < |lines|
    ensures Rewritten(lines, pairs)[i] == RewriteLine(lines[i], pairs)
    decreases |lines|
  {
    if i < |lines| - 1 {
      RewrittenAt(lines[..|lines| - 1], pairs, i);
    }
  }

  /** The lines the final loop pushes. */
  function AssignmentLines(ps: seq<Pair>): (r: seq<string>)
    ensures |r| == |ps|
    decreases |ps|
  {
    if ps == [] then []
    else
      var p := ps[|ps| - 1];
      AssignmentLines(ps[..|ps| - 1]) + [Assignment(p.key, p.value)]
  }

  /** The `j`-th pushed line is the assignment of the `j`-th entry. */
  lemma {:induction false} AssignmentLinesAt(ps: seq<Pair>, j: int)
    requires 0 <= j < |ps|
    ensures AssignmentLines(ps)[j] == Assignment(ps[j].key, ps[j].value)
    decreases |ps|
  {
    if j < |ps| - 1 {
      AssignmentLinesAt(ps[..|ps| - 1], j);
    }
  }

  /** The lines `updateEnvFile` joins and writes, for the lines it read. */
  function UpdatedLines(lines: seq<string>, pairs: seq<Pair>): seq<string> {
    Rewritten(lines, pairs) + AssignmentLines(Unmatched(pairs, MatchedKeys(lines, pairs)))
  }

  /**
   * What the update does to each line: a line that matches no key, or a key not among the
   * pairs, stays where it was; every line matching a pair's key, duplicates included,
   * becomes `key=formatValue(value)`; then come the unmatched entries, one line each, so the
   * line count grows by the number of unmatched keys.
   */
  lemma UpdatedLinesShape(lines: seq<string>, pairs: seq<Pair>)
    requires DistinctKeys(pairs)
    ensures var out := UpdatedLines(lines, pairs);
      var u := Unmatched(pairs, MatchedKeys(lines, pairs));
      && |out| == |lines| + |u|
      && (forall i :: 0 <= i < |lines| && (LineKey(lines[i]).None? || Lookup(pairs, LineKey(lines[i]).value).None?) ==>
            out[i] == lines[i])
      && (forall i, j :: 0 <= i < |lines| && 0 <= j < |pairs| && LineKey(lines[i]) == Some(pairs[j].key) ==>
            out[i] == Assignment(pairs[j].key, pairs[j].value))
      && (forall j :: 0 <= j < |u| ==> out[|lines| + j] == Assignment(u[j].key, u[j].value))
  {
    forall j | 0 <= j < |pairs| {
      LookupEntry(pairs, j);
    }
    forall i | 0 <= i < |lines| {
      RewrittenAt(lines, pairs, i);
    }
    var u := Unmatched(pairs, MatchedKeys(lines, pairs));
    forall j | 0 <= j < |u| {
      AssignmentLinesAt(u, j);
    }
  }

  /** A key that some line matched is never appended; one that no line matched is appended exactly once. */
  lemma AppendedOnce(lines: seq<string>, pairs: seq<Pair>, j: int)
    requires DistinctKeys(pairs) && 0 <= j < |pairs|
    ensures var u := Unmatched(pairs, MatchedKeys(lines, pairs));
      var matched := exists i {:trigger LineKey(lines[i])} :: 0 <= i < |lines| && LineKey(lines[i]) == Some(pairs[j].key);
      && (matched ==> forall x :: 0 <= x < |u| ==> u[x].key != pairs[j].key)
      && (!matched ==> exists x :: 0 <= x < |u| && u[x] == pairs[j] &&
                         forall y :: 0 <= y < |u| && u[y].key == pairs[j].key ==> y == x)
  {
    var seen := MatchedKeys(lines, pairs);
    var u := Unmatched(pairs, seen);
    UnmatchedSpec(pairs, seen);
    LookupEntry(pairs, j);
    MatchedKeysSpec(lines, pairs, pairs[j].key);
    if pairs[j].key in seen {
      forall x | 0 <= x < |u| ensures u[x].key != pairs[j].key {
        assert u[x] in u;
      }
    } else {
      assert pairs[j] in u;
      var x :| 0 <= x < |u| && u[x] == pairs[j];
    }
  }

  // ---------------------------------------------------------------------------
  // Idempotence

  /** The pairs whose lines survive another round: key names the pattern accepts, values on one line. */
  predicate SafePairs(pairs: seq<Pair>) {
    forall i :: 0 <= i < |pairs| ==> IsKeyName(pairs[i].key) && NoLineTerminator(pairs[i].value)
  }

  /** A written line `key=...` is matched again, with the same key. */
  lemma AssignmentKey(k: string, v: string)
    requires IsKeyName(k) && NoLineTerminator(v)
    ensures LineKey(Assignment(k, v)) == Some(k)
  {
    var fv := FormatValue(v);
    var s := k + "=" + fv;
    assert s[0] == k[0];
    assert forall q :: 0 <= q < |k| ==> s[q] == k[q];
    assert s[|k|] == '=';
    var a := Span(s, 0, IsSpace);
    assert a == 0;
    SpanPasses(s, 0, IsKeyChar);
    SpanStops(s, 0, IsKeyChar);
    var b := Span(s, 0, IsKeyChar);
    assert b == |k|;
    assert Span(s, |k|, IsSpace) == |k|;
    assert s[|k| + 1..] == fv;
    var d := Span(fv, 0, IsSpace);
    SpanStops(fv, d, NotLineTerminator);
    assert Span(fv, d, NotLineTerminator) == |fv|;
    assert TailMatches(fv);
    assert s[0..|k|] == k;
  }

  /** A written line has no line terminator in it. */
  lemma AssignmentOneLine(k: string, v: string)
    requires IsKeyName(k) && NoLineTerminator(v)
    ensures NoLineTerminator(Assignment(k, v))
  {
    var s := Assignment(k, v);
    forall q | 0 <= q < |s| ensures !IsLineTerminator(s[q]) {
      if q < |k| {
        assert s[q] == k[q];
      } else if q > |k| {
        assert s[q] == FormatValue(v)[q - |k| - 1];
      }
    }
  }

  /** Rewriting a line a second time changes nothing and sees the same key. */
  lemma RewriteLineTwice(line: string, pairs: seq<Pair>)
    requires SafePairs(pairs)
    ensures RewriteLine(RewriteLine(line, pairs), pairs) == RewriteLine(line, pairs)
    ensures KeyHit(RewriteLine(line, pairs), pairs) == KeyHit(line, pairs)
  {
    match LineKey(line)
    case None =>
    case Some(k) =>
      match Lookup(pairs, k)
      case None =>
      case Some(v) =>
        var i :| 0 <= i < |pairs| && pairs[i] == Pair(k, v);
        AssignmentKey(k, v);
  }

  /** A line written for an entry of the record is kept as it is by another round and marks its key. */
  lemma AssignmentLineFixed(k: string, v: string, pairs: seq<Pair>)
    requires IsKeyName(k) && NoLineTerminator(v) && Lookup(pairs, k) == Some(v)
    ensures RewriteLine(Assignment(k, v), pairs) == Assignment(k, v)
    ensures KeyHit(Assignment(k, v), pairs) == {k}
  {
    AssignmentKey(k, v);
  }

  /** The appended entries are entries of the record. */
  lemma UnmatchedEntries(pairs: seq<Pair>, seen: set<string>)
    requires DistinctKeys(pairs) && SafePairs(pairs)
    ensures EntriesOf(Unmatched(pairs, seen), pairs)
  {
    var u := Unmatched(pairs, seen);
    UnmatchedSpec(pairs, seen);
    forall x | 0 <= x < |u|
      ensures IsKeyName(u[x].key) && NoLineTerminator(u[x].value) && Lookup(pairs, u[x].key) == Some(u[x].value)
    {
      assert u[x] in u;
      var j :| 0 <= j < |pairs| && pairs[j] == u[x];
      LookupEntry(pairs, j);
    }
  }

  /** The entries of `ps` are entries of the record `pairs` that survive another round. */
  predicate EntriesOf(ps: seq<Pair>, pairs: seq<Pair>) {
    forall x :: 0 <= x < |ps| ==>
      IsKeyName(ps[x].key) && NoLineTerminator(ps[x].value) && Lookup(pairs, ps[x].key) == Some(ps[x].value)
  }

  lemma {:induction false} MatchedKeysAppend(xs: seq<string>, ys: seq<string>, pairs: seq<Pair>)
    ensures MatchedKeys(xs + ys, pairs) == MatchedKeys(xs, pairs) + MatchedKeys(ys, pairs)
    decreases |ys|
  {
    if ys == [] {
      assert xs + ys == xs;
    } else {
      var init := ys[..|ys| - 1];
      assert (xs + ys)[..|xs + ys| - 1] == xs + init;
      MatchedKeysAppend(xs, init, pairs);
    }
  }

  /** The rewritten lines mark the same keys as the lines they came from. */
  lemma {:induction false} MatchedKeysRewritten(lines: seq<string>, pairs: seq<Pair>)
    requires SafePairs(pairs)
    ensures MatchedKeys(Rewritten(lines, pairs), pairs) == MatchedKeys(lines, pairs)
    decreases |lines|
  {
    if lines != [] {
      var init := lines[..|lines| - 1];
      assert Rewritten(lines, pairs)[..|lines| - 1] == Rewritten(init, pairs);
      MatchedKeysRewritten(init, pairs);
      RewriteLineTwice(lines[|lines| - 1], pairs);
    }
  }

  /** Each appended line marks the key of the entry it was written for. */
  lemma MatchedKeysAppended(ps: seq<Pair>, pairs: seq<Pair>)
    requires EntriesOf(ps, pairs)
    ensures forall i :: 0 <= i < |ps| ==> ps[i].key in MatchedKeys(AssignmentLines(ps), pairs)
  {
    forall i | 0 <= i < |ps| ensures ps[i].key in MatchedKeys(AssignmentLines(ps), pairs) {
      AppendedKeySeen(ps, pairs, i);
    }
  }

  lemma AppendedKeySeen(ps: seq<Pair>, pairs: seq<Pair>, i: int)
    requires EntriesOf(ps, pairs) && 0 <= i < |ps|
    ensures ps[i].key in MatchedKeys(AssignmentLines(ps), pairs)
  {
    var p := ps[i];
    var lines := AssignmentLines(ps);
    AssignmentLinesAt(ps, i);
    AssignmentKey(p.key, p.value);
    assert LineKey(lines[i]) == Some(p.key);
    MatchedKeysSpec(lines, pairs, p.key);
  }

  lemma MatchedKeysSnoc(lines: seq<string>, line: string, pairs: seq<Pair>)
    ensures MatchedKeys(lines + [line], pairs) == MatchedKeys(lines, pairs) + KeyHit(line, pairs)
  {
    assert (lines + [line])[..|lines|] == lines;
  }

  lemma RewrittenSnoc(lines: seq<string>, line: string, pairs: seq<Pair>)
    ensures Rewritten(lines + [line], pairs) == Rewritten(lines, pairs) + [RewriteLine(line, pairs)]
  {
    assert (lines + [line])[..|lines|] == lines;
  }

  lemma AssignmentLinesSnoc(ps: seq<Pair>, p: Pair)
    ensures AssignmentLines(ps + [p]) == AssignmentLines(ps) + [Assignment(p.key, p.value)]
  {
    assert (ps + [p])[..|ps|] == ps;
  }

  /**
   * Running the update twice with the same pairs gives the lines of running it once, when
   * the keys are made of `[A-Za-z0-9_]` and no value holds a line terminator.
   */
  lemma UpdatedLinesIdempotent(lines: seq<string>, pairs: seq<Pair>)
    requires DistinctKeys(pairs) && SafePairs(pairs)
    ensures UpdatedLines(UpdatedLines(lines, pairs), pairs) == UpdatedLines(lines, pairs)
  {
    var out := UpdatedLines(lines, pairs);
    UpdatedLinesFixed(lines, pairs);
    UpdatedLinesSeeAll(lines, pairs);
    UnmatchedEmpty(pairs, MatchedKeys(out, pairs));
    assert AssignmentLines([]) == [];
  }

  /** Another round rewrites every updated line to itself. */
  lemma UpdatedLinesFixed(lines: seq<string>, pairs: seq<Pair>)
    requires DistinctKeys(pairs) && SafePairs(pairs)
    ensures Rewritten(UpdatedLines(lines, pairs), pairs) == UpdatedLines(lines, pairs)
  {
    var u := Unmatched(pairs, MatchedKeys(lines, pairs));
    UnmatchedEntries(pairs, MatchedKeys(lines, pairs));
    RewrittenAppend(Rewritten(lines, pairs), AssignmentLines(u), pairs);
    RewrittenTwice(lines, pairs);
    AssignmentLinesFixed(u, pairs);
  }

  lemma {:induction false} RewrittenAppend(xs: seq<string>, ys: seq<string>, pairs: seq<Pair>)
    ensures Rewritten(xs + ys, pairs) == Rewritten(xs, pairs) + Rewritten(ys, pairs)
    decreases |ys|
  {
    if ys == [] {
      assert xs + ys == xs;
    } else {
      var init := ys[..|ys| - 1];
      assert (xs + ys)[..|xs + ys| - 1] == xs + init;
      RewrittenAppend(xs, init, pairs);
    }
  }

  /** Mapping the rewritten lines again changes none of them. */
  lemma {:induction false} RewrittenTwice(lines: seq<string>, pairs: seq<Pair>)
    requires SafePairs(pairs)
    ensures Rewritten(Rewritten(lines, pairs), pairs) == Rewritten(lines, pairs)
    decreases |lines|
  {
    if lines != [] {
      var init := lines[..|lines| - 1];
      var last := lines[|lines| - 1];
      RewrittenTwice(init, pairs);
      RewriteLineTwice(last, pairs);
      RewrittenSnoc(Rewritten(init, pairs), RewriteLine(last, pairs), pairs);
    }
  }

  /** Mapping the appended lines changes none of them. */
  lemma {:induction false} AssignmentLinesFixed(ps: seq<Pair>, pairs: seq<Pair>)
    requires EntriesOf(ps, pairs)
    ensures Rewritten(AssignmentLines(ps), pairs) == AssignmentLines(ps)
    decreases |ps|
  {
    if ps != [] {
      var init := ps[..|ps| - 1];
      var last := ps[|ps| - 1];
      assert EntriesOf(init, pairs) by {
        assert forall x :: 0 <= x < |init| ==> init[x] == ps[x];
      }
      AssignmentLinesFixed(init, pairs);
      AssignmentLineFixed(last.key, last.value, pairs);
      RewrittenSnoc(AssignmentLines(init), Assignment(last.key, last.value), pairs);
    }
  }

  /** After one round, some line carries each key of the record. */
  lemma UpdatedLinesSeeAll(lines: seq<string>, pairs: seq<Pair>)
    requires DistinctKeys(pairs) && SafePairs(pairs)
    ensures forall i :: 0 <= i < |pairs| ==> pairs[i].key in MatchedKeys(UpdatedLines(lines, pairs), pairs)
  {
    var seen := MatchedKeys(lines, pairs);
    var u := Unmatched(pairs, seen);
    var r := Rewritten(lines, pairs);
    var a := AssignmentLines(u);
    UnmatchedSpec(pairs, seen);
    UnmatchedEntries(pairs, seen);
    MatchedKeysAppend(r, a, pairs);
    MatchedKeysRewritten(lines, pairs);
    MatchedKeysAppended(u, pairs);
    forall i | 0 <= i < |pairs| ensures pairs[i].key in MatchedKeys(r + a, pairs) {
      if pairs[i].key !in seen {
        assert pairs[i] in u;
      }
    }
  }

  // ---------------------------------------------------------------------------
  // Lines of the file: content.split(/\r?\n/) and out.join("\n")

  predicate NotNewline(c: char) {
    c != '\n'
  }

  predicate EndsWithCR(line: string) {
    |line| > 0 && line[|line| - 1] == '\r'
  }

  /** The text before a `\n`, without the `\r` that `\r?\n` takes along. */
  function DropCR(line: string): string {
    if EndsWithCR(line) then line[..|line| - 1] else line
  }

  /** `content.split(/\r?\n/)`: the empty text is one empty line. */
  function SplitLines(s: string): (r: seq<string>)
    ensures |r| >= 1
    decreases |s|
  {
    var n := Span(s, 0, NotNewline);
    if n == |s| then [s] else [DropCR(s[..n])] + SplitLines(s[n + 1..])
  }

  /** No line of the split text holds a `\n`. */
  lemma {:induction false} SplitLinesNoNewline(s: string)
    ensures forall i :: 0 <= i < |SplitLines(s)| ==> '\n' !in SplitLines(s)[i]
    decreases |s|
  {
    var n := Span(s, 0, NotNewline);
    SpanPasses(s, 0, NotNewline);
    if n == |s| {
      assert forall q :: 0 <= q < |s| ==> s[q] != '\n';
    } else {
      var head := DropCR(s[..n]);
      var tail := SplitLines(s[n + 1..]);
      SplitLinesNoNewline(s[n + 1..]);
      assert forall q :: 0 <= q < |head| ==> head[q] == s[q];
      assert SplitLines(s) == [head] + tail;
      assert forall i :: 0 < i < |SplitLines(s)| ==> SplitLines(s)[i] == tail[i - 1];
    }
  }

  /** `lines.join("\n")`. */
  function JoinLines(lines: seq<string>): string {
    if lines == [] then ""
    else if |lines| == 1 then lines[0]
    else lines[0] + "\n" + JoinLines(lines[1..])
  }

  /** Splitting joined lines gives them back, when none holds a `\n` and none but the last ends in `\r`. */
  lemma {:induction false} SplitJoin(lines: seq<string>)
    requires |lines| >= 1
    requires forall i :: 0 <= i < |lines| ==> '\n' !in lines[i]
    requires forall i :: 0 <= i < |lines| - 1 ==> !EndsWithCR(lines[i])
    ensures SplitLines(JoinLines(lines)) == lines
  {
    var s := JoinLines(lines);
    var l := lines[0];
    var n := Span(s, 0, NotNewline);
    SpanPasses(s, 0, NotNewline);
    SpanStops(s, 0, NotNewline);
    if |lines| == 1 {
      assert forall q :: 0 <= q < |l| ==> NotNewline(l[q]);
    } else {
      var rest := JoinLines(lines[1..]);
      assert s == l + "\n" + rest;
      assert forall q :: 0 <= q < |l| ==> s[q] == l[q];
      assert s[|l|] == '\n';
      assert forall q :: 0 <= q < |l| ==> NotNewline(l[q]);
      assert n == |l|;
      assert s[..n] == l;
      assert s[n + 1..] == rest;
      SplitJoin(lines[1..]);
    }
  }

  /** The same lines joined with `\r\n`, as a file saved with Windows line ends holds them. */
  function JoinCRLF(lines: seq<string>): string {
    if lines == [] then ""
    else if |lines| == 1 then lines[0]
    else lines[0] + "\r\n" + JoinCRLF(lines[1..])
  }

  /**
   * `\r?\n` takes the `\r` along: splitting lines joined with `\r\n` gives them back, when
   * none holds a `\n` and none but the last ends in `\r`.
   */
  lemma {:induction false} SplitJoinCRLF(lines: seq<string>)
    requires |lines| >= 1
    requires forall i :: 0 <= i < |lines| ==> '\n' !in lines[i]
    requires forall i :: 0 <= i < |lines| - 1 ==> !EndsWithCR(lines[i])
    ensures SplitLines(JoinCRLF(lines)) == lines
  {
    var s := JoinCRLF(lines);
    if |lines| == 1 {
      SplitJoin(lines);
    } else {
      CutAtCRLF(lines[0], JoinCRLF(lines[1..]));
      SplitJoinCRLF(lines[1..]);
    }
  }

  /** `l\r\nrest` with no `\n` in `l` splits off `l` first and leaves `rest`. */
  lemma CutAtCRLF(l: string, rest: string)
    requires '\n' !in l && !EndsWithCR(l)
    ensures var s := l + "\r\n" + rest;
      Span(s, 0, NotNewline) == |l| + 1 && DropCR(s[..|l| + 1]) == l && s[|l| + 2..] == rest
  {
    var s := l + "\r\n" + rest;
    assert forall q :: 0 <= q < |l| ==> s[q] == l[q];
    assert s[|l|] == '\r' && s[|l| + 1] == '\n';
    SpanAt(s, 0, |l| + 1, NotNewline);
    assert s[..|l| + 1] == l + "\r";
  }

  /**
   * A text with `\r\n` line ends is updated as the same text with `\n` line ends: the
   * `\r\n` line ends come out as `\n`.
   */
  lemma UpdatedContentCRLF(lines: seq<string>, pairs: seq<Pair>)
    requires |lines| >= 1
    requires forall i :: 0 <= i < |lines| ==> '\n' !in lines[i]
    requires forall i :: 0 <= i < |lines| - 1 ==> !EndsWithCR(lines[i])
    ensures UpdatedContent(JoinCRLF(lines), pairs) == UpdatedContent(JoinLines(lines), pairs)
  {
    SplitJoinCRLF(lines);
    SplitJoin(lines);
  }

  predicate NoCR(s: string) {
    forall q :: 0 <= q < |s| ==> s[q] != '\r'
  }

  /** Joining split lines gives the text back, when it holds no `\r`. */
  lemma {:induction false} JoinSplit(s: string)
    requires NoCR(s)
    ensures JoinLines(SplitLines(s)) == s
    decreases |s|
  {
    var n := Span(s, 0, NotNewline);
    if n < |s| {
      SpanStops(s, 0, NotNewline);
      var head := s[..n];
      var rest := s[n + 1..];
      NoCRParts(s, n);
      JoinSplit(rest);
      JoinCons(head, SplitLines(rest));
      CutAtNewline(s, n);
    }
  }

  /** The parts around a `\n` of a text without `\r` hold no `\r` either. */
  lemma NoCRParts(s: string, n: int)
    requires NoCR(s) && 0 <= n < |s|
    ensures NoCR(s[n + 1..])
    ensures DropCR(s[..n]) == s[..n]
  {
    assert n > 0 ==> s[..n][n - 1] == s[n - 1];
  }

  /** A text is the part before its `\n` at `n`, the `\n`, and the part after. */
  lemma CutAtNewline(s: string, n: int)
    requires 0 <= n < |s| && s[n] == '\n'
    ensures s == s[..n] + "\n" + s[n + 1..]
  {
  }

  lemma JoinCons(head: string, tail: seq<string>)
    requires |tail| >= 1
    ensures JoinLines([head] + tail) == head + "\n" + JoinLines(tail)
  {
    assert ([head] + tail)[1..] == tail;
  }

  /** The text `updateEnvFile` writes for the text it read. */
  function UpdatedContent(content: string, pairs: seq<Pair>): string {
    JoinLines(UpdatedLines(SplitLines(content), pairs))
  }

  /**
   * Reading back the written text gives exactly the lines the update produced, when the
   * pairs are safe and no line of the text read ends in a stray `\r`.
   */
  lemma UpdatedContentLines(content: string, pairs: seq<Pair>)
    requires DistinctKeys(pairs) && SafePairs(pairs)
    requires forall i :: 0 <= i < |SplitLines(content)| ==> !EndsWithCR(SplitLines(content)[i])
    ensures SplitLines(UpdatedContent(content, pairs)) == UpdatedLines(SplitLines(content), pairs)
  {
    var lines := SplitLines(content);
    SplitLinesNoNewline(content);
    UpdatedLinesSingle(lines, pairs);
    SplitJoin(UpdatedLines(lines, pairs));
  }

  /**
   * Running the update on its own output changes nothing, when the pairs are safe and no line
   * of the text read ends in a stray `\r`; `\r\n` line ends come out as `\n`.
   */
  lemma UpdatedContentIdempotent(content: string, pairs: seq<Pair>)
    requires DistinctKeys(pairs) && SafePairs(pairs)
    requires forall i :: 0 <= i < |SplitLines(content)| ==> !EndsWithCR(SplitLines(content)[i])
    ensures UpdatedContent(UpdatedContent(content, pairs), pairs) == UpdatedContent(content, pairs)
  {
    UpdatedContentLines(content, pairs);
    UpdatedLinesIdempotent(SplitLines(content), pairs);
  }

  // A multi-line value is not read back as one line

  /** The value `a\nb` holds whitespace, so it is quoted, with its line break inside the quotes. */
  lemma FormatTwoLineValue()
    ensures FormatValue("a\nb") == "\"a\nb\""
  {
    assert IsSpecial("a\nb"[1]);
    assert EscapeQuotes("a\nb") == "a\nb";
  }

  /** One entry pushes one line. */
  lemma AssignmentLinesOne(p: Pair)
    ensures AssignmentLines([p]) == [Assignment(p.key, p.value)]
  {
    assert [p][..0] == [];
  }

  /** The line written for `K` = `a\nb`. */
  lemma AssignmentTwoLineValue(key: string, value: string)
    requires key == "K" && value == "a\nb"
    ensures Assignment(key, value) == "K=\"a\nb\""
  {
    FormatTwoLineValue();
    AssignmentOf(key, value, "\"a\nb\"");
    TwoLineText();
  }

  lemma TwoLineText()
    ensures "K" + "=" + "\"a\nb\"" == "K=\"a\nb\""
  {
    assert |"K" + "=" + "\"a\nb\""| == 7;
  }

  /** The line written for `key` is `key=` followed by the formatted value. */
  lemma AssignmentOf(key: string, value: string, formatted: string)
    requires FormatValue(value) == formatted
    ensures Assignment(key, value) == key + "=" + formatted
  {
  }

  /** A new file with the entry `K` = `a\nb` gets that one assignment appended. */
  lemma TwoLinePushed(ps: seq<Pair>)
    requires ps == [Pair("K", "a\nb")]
    ensures AssignmentLines(ps) == ["K=\"a\nb\""]
  {
    AssignmentLinesOne(ps[0]);
    AssignmentTwoLineValue(ps[0].key, ps[0].value);
  }

  /** A new file with the entry `K` = `a\nb`: the blank line, then the assignment. */
  lemma TwoLineFirstLines(content: string, ps: seq<Pair>)
    requires content == "" && ps == [Pair("K", "a\nb")]
    ensures UpdatedLines(SplitLines(content), ps) == ["", "K=\"a\nb\""]
  {
    assert SplitLines("") == [""];
    EmptyFileLines(ps);
    TwoLinePushed(ps);
  }

  /** The text written for a new file with the entry `K` = `a\nb`. */
  lemma TwoLineFirstRun(content: string, ps: seq<Pair>)
    requires content == "" && ps == [Pair("K", "a\nb")]
    ensures UpdatedContent(content, ps) == "\nK=\"a\nb\""
  {
    TwoLineFirstLines(content, ps);
    ContentOfLines(content, ps, ["", "K=\"a\nb\""]);
    JoinTwo("", "K=\"a\nb\"");
    TwoLineJoined();
  }

  lemma TwoLineJoined()
    ensures "" + "\n" + "K=\"a\nb\"" == "\nK=\"a\nb\""
  {
    assert |"" + "\n" + "K=\"a\nb\""| == 8;
  }

  /** The text written is the join of the updated lines. */
  lemma ContentOfLines(content: string, pairs: seq<Pair>, lines: seq<string>)
    requires UpdatedLines(SplitLines(content), pairs) == lines
    ensures UpdatedContent(content, pairs) == JoinLines(lines)
  {
  }

  /** `join("\n")` of two lines. */
  lemma JoinTwo(a: string, b: string)
    ensures JoinLines([a, b]) == a + "\n" + b
  {
    assert [a, b][1..] == [b];
  }

  /** Read back, that text has three lines: the value's line break splits the assignment. */
  lemma TwoLineWrittenSplit()
    ensures SplitLines("\nK=\"a\nb\"") == ["", "K=\"a", "b\""]
  {
    var s := "\nK=\"a\nb\"";
    var t := "K=\"a\nb\"";
    var u := "b\"";
    SpanAt(u, 0, 2, NotNewline);
    assert SplitLines(u) == [u];
    SpanAt(t, 0, 4, NotNewline);
    assert t[..4] == "K=\"a" && t[5..] == u;
    assert !EndsWithCR("K=\"a");
    assert SplitLines(t) == ["K=\"a"] + SplitLines(u);
    SpanAt(s, 0, 0, NotNewline);
    assert s[..0] == "" && s[1..] == t;
    assert SplitLines(s) == [""] + SplitLines(t);
  }

  /** The first half of the split assignment still matches the pattern, with key `K`. */
  lemma KeyOfOpenQuoteLine()
    ensures LineKey("K=\"a") == Some("K")
  {
    var l := "K=\"a";
    SpanAt(l, 0, 0, IsSpace);
    SpanAt(l, 0, 1, IsKeyChar);
    SpanAt(l, 1, 1, IsSpace);
    var rest := "\"a";
    SpanAt(rest, 0, 0, IsSpace);
    SpanAt(rest, 0, 2, NotLineTerminator);
    SpanAt(rest, 2, 2, IsSpace);
    assert TailMatches(rest);
    assert l[1] == '=' && l[2..] == rest && l[0..1] == "K";
  }

  /** The second half of the split assignment matches no key. */
  lemma NoKeyInQuoteTail()
    ensures LineKey("b\"") == None
  {
    var l := "b\"";
    SpanAt(l, 0, 0, IsSpace);
    SpanAt(l, 0, 1, IsKeyChar);
    SpanAt(l, 1, 1, IsSpace);
  }

  /** The map over three lines, and the keys it marks. */
  lemma RewrittenThree(a: string, b: string, c: string, ps: seq<Pair>)
    ensures Rewritten([a, b, c], ps) == [RewriteLine(a, ps), RewriteLine(b, ps), RewriteLine(c, ps)]
    ensures MatchedKeys([a, b, c], ps) == KeyHit(a, ps) + KeyHit(b, ps) + KeyHit(c, ps)
  {
    var lines := [a, b, c];
    assert lines[..2] == [a, b] && [a, b][..1] == [a] && [a][..0] == [];
    assert Rewritten([a], ps) == [RewriteLine(a, ps)];
    assert Rewritten([a, b], ps) == [RewriteLine(a, ps), RewriteLine(b, ps)];
    assert MatchedKeys([a], ps) == KeyHit(a, ps);
    assert MatchedKeys([a, b], ps) == KeyHit(a, ps) + KeyHit(b, ps);
  }

  /** `join("\n")` of three lines. */
  lemma JoinThree(a: string, b: string, c: string)
    ensures JoinLines([a, b, c]) == a + "\n" + b + "\n" + c
  {
    assert [a, b, c][1..] == [b, c];
    assert [b, c][1..] == [c];
    assert JoinLines([b, c]) == b + "\n" + c;
  }

  /** The half line with key `K` is rewritten to the full assignment again, and marks `K`. */
  lemma RewriteOpenQuoteLine(ps: seq<Pair>)
    requires ps == [Pair("K", "a\nb")]
    ensures RewriteLine("K=\"a", ps) == "K=\"a\nb\"" && KeyHit("K=\"a", ps) == {"K"}
  {
    KeyOfOpenQuoteLine();
    LookupEntry(ps, 0);
    AssignmentTwoLineValue(ps[0].key, ps[0].value);
  }

  /** A line without a key is kept and marks nothing. */
  lemma RewriteKeyless(l: string, ps: seq<Pair>)
    requires LineKey(l) == None
    ensures RewriteLine(l, ps) == l && KeyHit(l, ps) == {}
  {
  }

  /** The second run keeps the blank line, rewrites the first half, keeps the stray second half and appends nothing. */
  lemma TwoLineSecondLines(lines: seq<string>, ps: seq<Pair>)
    requires lines == ["", "K=\"a", "b\""] && ps == [Pair("K", "a\nb")]
    ensures UpdatedLines(lines, ps) == ["", "K=\"a\nb\"", "b\""]
  {
    RewrittenThree(lines[0], lines[1], lines[2], ps);
    BlankLineHasNoKey("");
    RewriteKeyless(lines[0], ps);
    NoKeyInQuoteTail();
    RewriteKeyless(lines[2], ps);
    RewriteOpenQuoteLine(ps);
    assert MatchedKeys(lines, ps) == {"K"};
    assert ps[..0] == [];
    assert Unmatched(ps, {"K"}) == [];
  }


  /** The second run writes a longer text: the stray half line stays. */
  lemma TwoLineSecondRun(ps: seq<Pair>)
    requires ps == [Pair("K", "a\nb")]
    ensures |UpdatedContent("\nK=\"a\nb\"", ps)| == 11
  {
    TwoLineWrittenSplit();
    TwoLineSecondLines(["", "K=\"a", "b\""], ps);
    JoinThree("", "K=\"a\nb\"", "b\"");
  }

  /**
   * `formatValue` does not escape line breaks, so the update is not idempotent for a
   * multi-line value: a new file with `K` = `a\nb` is written as `\nK="a\nb"`, which reads
   * back as three lines, and a second run writes a different, longer text.
   */
  lemma MultiLineValueNotIdempotent()
    ensures var ps := [Pair("K", "a\nb")];
      && SplitLines(UpdatedContent("", ps)) == ["", "K=\"a", "b\""]
      && UpdatedContent(UpdatedContent("", ps), ps) != UpdatedContent("", ps)
  {
    var ps := [Pair("K", "a\nb")];
    TwoLineFirstRun("", ps);
    TwoLineWrittenSplit();
    TwoLineSecondRun(ps);
  }

  /**
   * When no line read holds a `\n` or ends in `\r`, and the pairs are safe, no line the
   * update writes does either.
   */
  lemma UpdatedLinesSingle(lines: seq<string>, pairs: seq<Pair>)
    requires DistinctKeys(pairs) && SafePairs(pairs)
    requires forall i :: 0 <= i < |lines| ==> '\n' !in lines[i] && !EndsWithCR(lines[i])
    ensures var out := UpdatedLines(lines, pairs);
      forall i :: 0 <= i < |out| ==> '\n' !in out[i] && !EndsWithCR(out[i])
  {
    var seen := MatchedKeys(lines, pairs);
    var u := Unmatched(pairs, seen);
    var out := UpdatedLines(lines, pairs);
    UnmatchedEntries(pairs, seen);
    forall i | 0 <= i < |out| ensures '\n' !in out[i] && !EndsWithCR(out[i]) {
      if i < |lines| {
        RewrittenAt(lines, pairs, i);
        match LineKey(lines[i])
        case None =>
        case Some(k) =>
          match Lookup(pairs, k)
          case None =>
          case Some(v) =>
            var j :| 0 <= j < |pairs| && pairs[j] == Pair(k, v);
            AssignmentOneLine(k, v);
      } else {
        var p := u[i - |lines|];
        AssignmentLinesAt(u, i - |lines|);
        AssignmentOneLine(p.key, p.value);
      }
      OneLine(out[i]);
    }
  }

  lemma OneLine(line: string)
    requires NoLineTerminator(line) || ('\n' !in line && !EndsWithCR(line))
    ensures '\n' !in line && !EndsWithCR(line)
  {
    if NoLineTerminator(line) {
      assert forall q :: 0 <= q < |line| ==> line[q] != '\n';
    }
  }

  /** A missing or empty file reads as one empty line, so the written text starts with a blank line. */
  lemma EmptyFileStartsBlank(pairs: seq<Pair>)
    requires pairs != []
    ensures var written := UpdatedContent("", pairs);
      |written| > 0 && written[0] == '\n'
  {
    assert SplitLines("") == [""];
    EmptyFileLines(pairs);
    JoinCons("", AssignmentLines(pairs));
  }

  /** The empty line is kept and every entry is appended after it. */
  lemma EmptyFileLines(pairs: seq<Pair>)
    ensures UpdatedLines([""], pairs) == [""] + AssignmentLines(pairs)
  {
    assert LineKey("") == None;
    assert [""][..0] == [];
    assert MatchedKeys([""], pairs) == {};
    assert Rewritten([""], pairs) == [""];
    UnmatchedNothingSeen(pairs);
  }

  lemma {:induction false} UnmatchedNothingSeen(pairs: seq<Pair>)
    ensures Unmatched(pairs, {}) == pairs
    decreases |pairs|
  {
    if pairs != [] {
      UnmatchedNothingSeen(pairs[..|pairs| - 1]);
    }
  }

  // ---------------------------------------------------------------------------
  // updateEnvFile

  /**
   * The body of `updateEnvFile` between reading and writing: `lines.map(...)` fills `seen`
   * while it rewrites, then the loop over the entries appends those not seen.
   */
  method UpdateEnvLines(lines: seq<string>, pairs: seq<Pair>) returns (out: seq<string>)
    ensures out == UpdatedLines(lines, pairs)
  {
    var rewritten, seen := MapLines(lines, pairs);
    out := PushUnseen(rewritten, pairs, seen);
  }

  /** `lines.map(...)`, adding every key it rewrites to `seen`. */
  method MapLines(lines: seq<string>, pairs: seq<Pair>) returns (out: seq<string>, seen: set<string>)
    ensures out == Rewritten(lines, pairs)
    ensures seen == MatchedKeys(lines, pairs)
  {
    seen := {};
    out := [];
    var i := 0;
    while i < |lines|
      invariant 0 <= i <= |lines|
      invariant out == Rewritten(lines[..i], pairs)
      invariant seen == MatchedKeys(lines[..i], pairs)
    {
      var line := lines[i];
      MapStep(lines, pairs, i);
      ghost var seen0 := seen;
      var m := LineKey(line);
      var next := line;
      if m.Some? {
        var key := m.value;
        var v := Lookup(pairs, key);
        if v.Some? {
          seen := seen + {key};
          next := key + "=" + FormatValue(v.value);
        }
      }
      assert next == RewriteLine(line, pairs) && seen == seen0 + KeyHit(line, pairs);
      out := out + [next];
      i := i + 1;
    }
    assert lines[..i] == lines;
  }

  /** The loop over `Object.entries(pairs)`: every entry whose key was not seen is pushed. */
  method PushUnseen(rewritten: seq<string>, pairs: seq<Pair>, seen: set<string>) returns (out: seq<string>)
    ensures out == rewritten + AssignmentLines(Unmatched(pairs, seen))
  {
    out := rewritten;
    var j := 0;
    while j < |pairs|
      invariant 0 <= j <= |pairs|
      invariant out == rewritten + AssignmentLines(Unmatched(pairs[..j], seen))
    {
      var p := pairs[j];
      PushStep(pairs, seen, j);
      if p.key !in seen {
        var line := p.key + "=" + FormatValue(p.value);
        AppendAssoc(rewritten, AssignmentLines(Unmatched(pairs[..j], seen)), line);
        out := out + [line];
      }
      j := j + 1;
    }
    assert pairs[..j] == pairs;
  }

  /** One more line visited by the map: its rewrite is appended and its key, if any, is seen. */
  lemma MapStep(lines: seq<string>, pairs: seq<Pair>, i: int)
    requires 0 <= i < |lines|
    ensures Rewritten(lines[..i + 1], pairs) == Rewritten(lines[..i], pairs) + [RewriteLine(lines[i], pairs)]
    ensures MatchedKeys(lines[..i + 1], pairs) == MatchedKeys(lines[..i], pairs) + KeyHit(lines[i], pairs)
  {
    assert lines[..i + 1][..i] == lines[..i];
  }

  lemma AppendAssoc(a: seq<string>, b: seq<string>, x: string)
    ensures (a + b) + [x] == a + (b + [x])
  {
  }

  /** One more entry visited by the final loop: it is pushed exactly when its key was not seen. */
  lemma PushStep(pairs: seq<Pair>, seen: set<string>, j: int)
    requires 0 <= j < |pairs|
    ensures AssignmentLines(Unmatched(pairs[..j + 1], seen)) ==
      AssignmentLines(Unmatched(pairs[..j], seen)) +
      (if pairs[j].key in seen then [] else [Assignment(pairs[j].key, pairs[j].value)])
  {
    assert pairs[..j + 1][..j] == pairs[..j];
    var u := Unmatched(pairs[..j], seen);
    if pairs[j].key !in seen {
      AssignmentLinesSnoc(u, pairs[j]);
    } else {
      assert Unmatched(pairs[..j + 1], seen) == u;
    }
  }

  /**
   * `updateEnvFile(pairs)`: `existing` is what reading the file gave (`None` when it could not
   * be read, which the source treats as an empty file); the result is the text written back.
   */
  method UpdateEnvFile(existing: Option<string>, pairs: seq<Pair>) returns (written: string)
    ensures written == UpdatedContent(if existing.Some? then existing.value else "", pairs)
  {
    var content := if existing.Some? then existing.value else "";
    var lines := SplitLines(content);
    var out := UpdateEnvLines(lines, pairs);
    written := JoinLines(out);
  }
}
