/**
 * `replace_project` and `replace_project_dir`: for each entry of `PATTERNS`, resolve the value
 * from the config, glob the target path inside the instance, and rewrite every matched text file
 * with the pattern's regular expression.
 */
module Substitute {
  import opened Common
  import opened Strings
  import opened Paths
  import opened FileStore
  import opened Materialize

  // ----- the substitution `re.sub(r'"K": "([^"]+)",', '"\1": "V",', content)` -----

  /** The text before the capture group: `"K": "`. */
  function Opening(k: string): string {
    "\"" + k + "\": \""
  }

  /** The text after the capture group: `",`. */
  const Closing: string := "\","

  /** The length of the run of non-quote characters starting at `i` (newlines included). */
  function QuoteFree(t: string, i: nat): (n: nat)
    requires i <= |t|
    decreases |t| - i
    ensures i + n <= |t|
    ensures forall k :: i <= k < i + n ==> t[k] != '"'
    ensures i + n < |t| ==> t[i + n] == '"'
  {
    if i == |t| || t[i] == '"' then 0 else 1 + QuoteFree(t, i + 1)
  }

  /** What one match consumed: the captured old value, and the index just after `",`. */
  datatype Capture = Capture(value: string, end: nat)

  /**
   * The match of `"K": "([^"]+)",` starting exactly at `p`, if any. The greedy class stops at the
   * first quote, and giving characters back cannot help, since the group must be followed by a quote.
   */
  function MatchAt(c: string, key: string, p: nat): (r: Option<Capture>)
    ensures r.Some? ==> p < r.value.end <= |c|
    ensures r.Some? ==> c[p..r.value.end] == Opening(key) + r.value.value + Closing
    ensures r.Some? ==> r.value.value != [] && '"' !in r.value.value
  {
    var o := Opening(key);
    if p + |o| <= |c| && c[p..p + |o|] == o then
      var s := p + |o|;
      var n := QuoteFree(c, s);
      if n > 0 && OccursAt(c, Closing, s + n) then
        assert c[p..s + n + 2] == c[p..s] + c[s..s + n] + c[s + n..s + n + 2];
        Some(Capture(c[s..s + n], s + n + 2))
      else None
    else None
  }

  /** `MatchAt` misses no match: when it finds none, no quote-free value closes at `p`. */
  lemma MatchAtComplete(c: string, key: string, p: nat, x: string)
    requires x != [] && '"' !in x
    requires OccursAt(c, Opening(key) + x + Closing, p)
    ensures MatchAt(c, key, p) == Some(Capture(x, p + |Opening(key)| + |x| + 2))
  {
    var o := Opening(key);
    var s := p + |o|;
    var w := o + x + Closing;
    assert c[p..p + |w|] == w;
    assert c[p..p + |o|] == o by {
      assert c[p..p + |o|] == c[p..p + |w|][..|o|];
    }
    assert c[s..s + |x|] == x by {
      assert c[s..s + |x|] == c[p..p + |w|][|o|..|o| + |x|];
    }
    assert OccursAt(c, Closing, s + |x|) by {
      assert c[s + |x|..s + |x| + 2] == c[p..p + |w|][|o| + |x|..];
    }
    QuoteFreeIs(c, s, x);
    MatchAtHit(c, key, p, |x|);
  }

  /** A quote-free `x` followed by a quote at `s` is exactly the quote-free run at `s`. */
  lemma QuoteFreeIs(c: string, s: nat, x: string)
    requires '"' !in x && s + |x| < |c| && c[s..s + |x|] == x && c[s + |x|] == '"'
    ensures QuoteFree(c, s) == |x|
  {
    assert forall k :: s <= k < s + |x| ==> c[k] == x[k - s];
  }

  /** The match at `p` once the opening, the quote-free run and the closing are in place. */
  lemma MatchAtHit(c: string, key: string, p: nat, n: nat)
    requires p + |Opening(key)| <= |c| && c[p..p + |Opening(key)|] == Opening(key)
    requires n > 0 && QuoteFree(c, p + |Opening(key)|) == n && OccursAt(c, Closing, p + |Opening(key)| + n)
    ensures MatchAt(c, key, p) == Some(Capture(c[p + |Opening(key)|..p + |Opening(key)| + n], p + |Opening(key)| + n + 2))
  {
  }

  /** The scan `re.sub` makes: a match is replaced and skipped over, otherwise one character is kept. */
  datatype Piece = Lit(ch: char) | Hit(was: string)

  function Tokens(c: string, key: string, p: nat): seq<Piece>
    decreases |c| - p
  {
    if p >= |c| then []
    else match MatchAt(c, key, p)
      case Some(m) => [Hit(m.value)] + Tokens(c, key, m.end)
      case None => [Lit(c[p])] + Tokens(c, key, p + 1)
  }

  /** The pieces as they stand in the file before the substitution. */
  function RenderOld(ps: seq<Piece>, key: string): string
    decreases |ps|
  {
    if ps == [] then []
    else
      (match ps[0]
       case Lit(ch) => [ch]
       case Hit(x) => Opening(key) + x + Closing)
      + RenderOld(ps[1..], key)
  }

  /** The pieces after it: `"\1": "V",` puts the old value where the key was. */
  function RenderNew(ps: seq<Piece>, value: string): string
    decreases |ps|
  {
    if ps == [] then []
    else
      (match ps[0]
       case Lit(ch) => [ch]
       case Hit(x) => Opening(x) + value + Closing)
      + RenderNew(ps[1..], value)
  }

  /** `re.sub` of the pattern for `key` with replacement value `value` (a value without backslashes). */
  function Rewrite(c: string, key: string, value: string): string {
    RenderNew(Tokens(c, key, 0), value)
  }

  /** The scan loses nothing: between the matches, the text is kept as it was. */
  lemma {:induction false} TokensLossless(c: string, key: string, p: nat)
    requires p <= |c|
    ensures RenderOld(Tokens(c, key, p), key) == c[p..]
    decreases |c| - p
  {
    if p < |c| {
      match MatchAt(c, key, p)
      case Some(m) =>
        TokensLossless(c, key, m.end);
        assert c[p..] == c[p..m.end] + c[m.end..];
      case None =>
        TokensLossless(c, key, p + 1);
        assert c[p..] == [c[p]] + c[p + 1..];
    }
  }

  /** Every replaced occurrence had a non-empty, quote-free old value. */
  lemma {:induction false} HitsAreValues(c: string, key: string, p: nat)
    ensures forall x :: Hit(x) in Tokens(c, key, p) ==> x != [] && '"' !in x
    decreases |c| - p
  {
    if p < |c| {
      match MatchAt(c, key, p)
      case Some(m) => HitsAreValues(c, key, m.end);
      case None => HitsAreValues(c, key, p + 1);
    }
  }

  lemma {:induction false} NoMatchFrom(c: string, key: string, value: string, p: nat)
    requires p <= |c|
    requires forall q :: p <= q ==> MatchAt(c, key, q).None?
    ensures RenderNew(Tokens(c, key, p), value) == c[p..]
    decreases |c| - p
  {
    if p < |c| {
      NoMatchFrom(c, key, value, p + 1);
      assert c[p..] == [c[p]] + c[p + 1..];
    }
  }

  /**
   * Content without a full occurrence `"K": "x",` (non-empty, quote-free `x`) is written back
   * exactly as it was read.
   */
  lemma RewriteWithoutMatch(c: string, key: string, value: string)
    requires forall q: nat, x: string :: x != [] && '"' !in x ==> !OccursAt(c, Opening(key) + x + Closing, q)
    ensures Rewrite(c, key, value) == c
  {
    forall q: nat ensures MatchAt(c, key, q).None? {
      var m := MatchAt(c, key, q);
      assert m.Some? ==> OccursAt(c, Opening(key) + m.value.value + Closing, q);
    }
    NoMatchFrom(c, key, value, 0);
  }

  /** A text with no comma holds no occurrence, since every occurrence ends in `",`. */
  lemma RewriteWithoutComma(c: string, key: string, value: string)
    requires ',' !in c
    ensures Rewrite(c, key, value) == c
  {
    forall q: nat, x: string | x != [] && '"' !in x ensures !OccursAt(c, Opening(key) + x + Closing, q) {
      var w := Opening(key) + x + Closing;
      assert w[|w| - 1] == ',';
      if q + |w| <= |c| {
        assert c[q + |w| - 1] != ',';
        assert c[q..q + |w|][|w| - 1] != w[|w| - 1];
      }
    }
    RewriteWithoutMatch(c, key, value);
  }

  /** A last JSON field has no trailing comma, so `{"name": "old"}` is left as it is. */
  lemma RewriteKeepsLastField()
    ensures Rewrite("{\"name\": \"old\"}", "name", "Acme Corp") == "{\"name\": \"old\"}"
  {
    NoComma("{\"name\": \"old\"}");
    RewriteWithoutComma("{\"name\": \"old\"}", "name", "Acme Corp");
  }

  /** `[^"]+` needs a character, so an empty old value `"name": "",` is left as it is. */
  lemma RewriteKeepsEmptyValue()
    ensures Rewrite("\"name\": \"\",", "name", "Acme Corp") == "\"name\": \"\","
  {
    var c := "\"name\": \"\",";
    assert |c| == |Opening("name")| + 2;
    RewriteWithoutMatch(c, "name", "Acme Corp");
  }

  /** Proof helper, no counterpart in script.py: the literal has no comma, kept apart for cost. */
  lemma NoComma(c: string)
    requires c == "{\"name\": \"old\"}"
    ensures ',' !in c
  {
    assert forall k :: 0 <= k < |c| ==> c[k] != ',';
  }

  /** A file that is exactly one occurrence `"K": "x",` becomes `"x": "V",`. */
  lemma RewriteWhole(c: string, key: string, x: string, value: string)
    requires x != [] && '"' !in x
    requires c == Opening(key) + x + Closing
    ensures Rewrite(c, key, value) == Opening(x) + value + Closing
  {
    assert OccursAt(c, Opening(key) + x + Closing, 0);
    MatchAtComplete(c, key, 0, x);
    assert |c| == |Opening(key)| + |x| + 2;
    assert Tokens(c, key, |c|) == [];
    var ps := Tokens(c, key, 0);
    assert ps == [Hit(x)] && ps[1..] == [];
    assert RenderNew(ps, value) == Opening(x) + value + Closing + RenderNew([], value);
  }

  /** `"name": "old",` becomes `"old": "Acme Corp",`: the old value lands in the key position. */
  lemma RewriteSwapsKey()
    ensures Rewrite("\"name\": \"old\",", "name", "Acme Corp") == "\"old\": \"Acme Corp\","
  {
    assert "\"name\": \"old\"," == Opening("name") + "old" + Closing;
    RewriteWhole("\"name\": \"old\",", "name", "old", "Acme Corp");
    SwappedText();
  }

  /** Proof helper, no counterpart in script.py: the literal text of the rewritten line, kept apart for cost. */
  lemma SwappedText()
    ensures Opening("old") + "Acme Corp" + Closing == "\"old\": \"Acme Corp\","
  {
  }

  // ----- every occurrence is replaced -----

  /**
   * A JSON key no occurrence can overlap itself through: quote-free, and not starting with the
   * ':' or ',' that follow a quote inside a match.
   */
  predicate PlainKey(key: string) {
    key != [] && '"' !in key && key[0] != ':' && key[0] != ','
  }

  /** Where the quotes of a match at `p` are, and what follows two of them. */
  lemma MatchQuotes(c: string, key: string, p: nat)
    requires '"' !in key && MatchAt(c, key, p).Some?
    ensures var m := MatchAt(c, key, p).value;
            m.end == p + |key| + 5 + |m.value| + 2 && QuoteFree(c, p + |key| + 5) == |m.value|
            && c[p + |key| + 2] == ':' && c[m.end - 1] == ','
            && forall k :: p < k < m.end && k != p + |key| + 1 && k != p + |key| + 4 && k != m.end - 2 ==> c[k] != '"'
  {
    var o := Opening(key);
    var s := p + |o|;
    var n := QuoteFree(c, s);
    assert |o| == |key| + 5;
    assert c[p..s] == o;
    assert forall k :: p < k < s ==> c[k] == o[k - p];
    assert forall i :: 0 < i <= |key| ==> o[i] == key[i - 1];
    assert c[s + n..s + n + 2] == Closing;
  }

  /** What an occurrence at `q` puts at its first characters, and the quote-free run after its quote. */
  lemma OccurrenceFront(c: string, key: string, q: nat, x: string)
    requires '"' !in key && key != []
    requires OccursAt(c, Opening(key) + x + Closing, q)
    ensures q + |key| + 2 < |c| && c[q] == '"' && c[q + 1] == key[0] && c[q + |key| + 2] == ':'
    ensures QuoteFree(c, q + 1) == |key|
  {
    var o := Opening(key);
    var w := o + x + Closing;
    assert c[q..q + |w|] == w;
    assert forall k :: q <= k < q + |o| ==> c[k] == o[k - q];
    assert c[q + 1..q + 1 + |key|] == key by {
      assert c[q + 1..q + 1 + |key|] == w[1..1 + |key|];
      assert o[1..1 + |key|] == key;
    }
    QuoteFreeIs(c, q + 1, key);
  }

  /** A match that starts before an occurrence of a plain key ends at or before it. */
  lemma NoStraddle(c: string, key: string, p: nat, q: nat, x: string)
    requires PlainKey(key) && p < q
    requires OccursAt(c, Opening(key) + x + Closing, q)
    requires MatchAt(c, key, p).Some?
    ensures MatchAt(c, key, p).value.end <= q
  {
    MatchQuotes(c, key, p);
    OccurrenceFront(c, key, q, x);
  }

  /** One step of the scan at a match: the hit, then the scan after it. */
  lemma TokensHit(c: string, key: string, p: nat)
    requires p < |c| && MatchAt(c, key, p).Some?
    ensures Tokens(c, key, p) == [Hit(MatchAt(c, key, p).value.value)] + Tokens(c, key, MatchAt(c, key, p).value.end)
  {
  }

  /** One step of the scan where nothing matches: the character, then the scan after it. */
  lemma TokensLit(c: string, key: string, p: nat)
    requires p < |c| && MatchAt(c, key, p).None?
    ensures Tokens(c, key, p) == [Lit(c[p])] + Tokens(c, key, p + 1)
  {
  }

  /** Proof helper, no counterpart in script.py: regrouping a concatenation, kept apart for cost. */
  lemma Prepend(h: Piece, ps: seq<Piece>, t: seq<Piece>, rest: seq<Piece>)
    requires t == ps + rest
    ensures [h] + t == ([h] + ps) + rest
  {
  }

  /** When no match between `p` and `q` runs past `q`, the scan from `p` passes through `q`. */
  lemma {:induction false} TokensReach(c: string, key: string, p: nat, q: nat)
    requires p <= q <= |c|
    requires forall k :: p <= k < q && MatchAt(c, key, k).Some? ==> MatchAt(c, key, k).value.end <= q
    ensures exists ps :: Tokens(c, key, p) == ps + Tokens(c, key, q)
    decreases q - p
  {
    if p == q {
      assert Tokens(c, key, p) == [] + Tokens(c, key, q);
    } else if MatchAt(c, key, p).Some? {
      var m := MatchAt(c, key, p).value;
      TokensReach(c, key, m.end, q);
      var ps :| Tokens(c, key, m.end) == ps + Tokens(c, key, q);
      TokensHit(c, key, p);
      Prepend(Hit(m.value), ps, Tokens(c, key, m.end), Tokens(c, key, q));
    } else {
      TokensReach(c, key, p + 1, q);
      var ps :| Tokens(c, key, p + 1) == ps + Tokens(c, key, q);
      TokensLit(c, key, p);
      Prepend(Lit(c[p]), ps, Tokens(c, key, p + 1), Tokens(c, key, q));
    }
  }

  /**
   * `re.sub` replaces every occurrence: wherever `"K": "x",` stands in the text, the scan from the
   * start reaches it and turns it into one `Hit(x)`, whatever came before.
   */
  lemma EveryOccurrenceReplaced(c: string, key: string, q: nat, x: string)
    requires PlainKey(key) && x != [] && '"' !in x
    requires OccursAt(c, Opening(key) + x + Closing, q)
    ensures exists ps :: Tokens(c, key, 0) == ps + [Hit(x)] + Tokens(c, key, q + |Opening(key)| + |x| + 2)
  {
    forall k | 0 <= k < q && MatchAt(c, key, k).Some? ensures MatchAt(c, key, k).value.end <= q {
      NoStraddle(c, key, k, q, x);
    }
    TokensReach(c, key, 0, q);
    var ps :| Tokens(c, key, 0) == ps + Tokens(c, key, q);
    var e := q + |Opening(key)| + |x| + 2;
    assert Tokens(c, key, q) == [Hit(x)] + Tokens(c, key, e) by {
      MatchAtComplete(c, key, q, x);
      TokensHit(c, key, q);
    }
    Append(ps, Hit(x), Tokens(c, key, q), Tokens(c, key, e));
  }

  /** Proof helper, no counterpart in script.py: regrouping a concatenation, kept apart for cost. */
  lemma Append(ps: seq<Piece>, h: Piece, t: seq<Piece>, rest: seq<Piece>)
    requires t == [h] + rest
    ensures ps + t == ps + [h] + rest
  {
  }

  /** Rendering distributes over concatenation. */
  lemma {:induction false} RenderNewAppend(a: seq<Piece>, b: seq<Piece>, value: string)
    ensures RenderNew(a + b, value) == RenderNew(a, value) + RenderNew(b, value)
    decreases |a|
  {
    if a == [] {
      assert a + b == b;
    } else {
      var ab := a + b;
      assert ab[0] == a[0] && ab[1..] == a[1..] + b;
      RenderNewAppend(a[1..], b, value);
    }
  }

  /** So the rewritten text holds `"x": "V",` where the occurrence was, followed by the rewrite of the rest. */
  lemma EveryOccurrenceRewritten(c: string, key: string, q: nat, x: string, value: string)
    requires PlainKey(key) && x != [] && '"' !in x
    requires OccursAt(c, Opening(key) + x + Closing, q)
    ensures exists pre :: Rewrite(c, key, value)
                          == pre + (Opening(x) + value + Closing) + RenderNew(Tokens(c, key, q + |Opening(key)| + |x| + 2), value)
  {
    EveryOccurrenceReplaced(c, key, q, x);
    var post := Tokens(c, key, q + |Opening(key)| + |x| + 2);
    var ps :| Tokens(c, key, 0) == ps + [Hit(x)] + post;
    RenderAround(ps, x, post, value);
    assert Rewrite(c, key, value) == RenderNew(ps, value) + (Opening(x) + value + Closing) + RenderNew(post, value);
  }

  /** The rendering of the pieces around one hit. */
  lemma RenderAround(ps: seq<Piece>, x: string, post: seq<Piece>, value: string)
    ensures RenderNew(ps + [Hit(x)] + post, value) == RenderNew(ps, value) + (Opening(x) + value + Closing) + RenderNew(post, value)
  {
    RenderNewAppend(ps + [Hit(x)], post, value);
    RenderNewAppend(ps, [Hit(x)], value);
    assert RenderNew([Hit(x)], value) == Opening(x) + value + Closing + RenderNew([], value);
  }

  // ----- text-mode reading -----

  /** `open(…, "r+")` then `read()`: universal newlines turn "\r\n" and a lone "\r" into "\n". */
  function ReadText(s: string): (r: string)
    ensures '\r' !in r
    ensures '\r' !in s ==> r == s
    ensures |r| <= |s|
  {
    if s == [] then []
    else if s[0] == '\r' then
      (if |s| > 1 && s[1] == '\n' then "\n" + ReadText(s[2..]) else "\n" + ReadText(s[1..]))
    else [s[0]] + ReadText(s[1..])
  }

  /**
   * Universal newlines as two `str.replace` passes: first every "\r\n" becomes "\n", then every
   * remaining "\r" does.
   */
  lemma {:induction false} ReadTextReplaces(s: string)
    ensures ReadText(s) == Passes(s)
    decreases |s|
  {
    if s != [] {
      if StartsWith(s, "\r\n") {
        ReadTextReplaces(s[2..]);
        PassesCrlf(s);
      } else {
        ReadTextReplaces(s[1..]);
        PassesOther(s);
      }
    }
  }

  /** The two passes of `ReadTextReplaces`. */
  function Passes(s: string): string {
    ReplaceAll(ReplaceAll(s, "\r\n", "\n"), "\r", "\n")
  }

  /** One step of `ReadTextReplaces` on a leading "\r\n". */
  lemma PassesCrlf(s: string)
    requires StartsWith(s, "\r\n") && ReadText(s[2..]) == Passes(s[2..])
    ensures ReadText(s) == Passes(s)
  {
    var y := ReplaceAll(s[2..], "\r\n", "\n");
    assert ReadText(s) == "\n" + ReadText(s[2..]) by {
      assert s[..2][0] == '\r' && s[..2][1] == '\n';
    }
    assert ReplaceAll(s, "\r\n", "\n") == "\n" + y by {
      ReplaceAtFront(s, "\r\n", "\n");
    }
    NewlineFront(y);
  }

  /** A leading "\n" is kept by the second pass. */
  lemma NewlineFront(y: string)
    ensures ReplaceAll("\n" + y, "\r", "\n") == "\n" + ReplaceAll(y, "\r", "\n")
  {
    var t := "\n" + y;
    assert t[0] == '\n' && t[1..] == y;
    ReplaceSkipsFront(t, "\r", "\n");
  }

  /** One step of `ReadTextReplaces` on any other leading character. */
  lemma PassesOther(s: string)
    requires s != [] && !StartsWith(s, "\r\n") && ReadText(s[1..]) == Passes(s[1..])
    ensures ReadText(s) == Passes(s)
  {
    var y := ReplaceAll(s[1..], "\r\n", "\n");
    ReplaceSkipsFront(s, "\r\n", "\n");
    var t := [s[0]] + y;
    assert t[0] == s[0] && t[1..] == y;
    if s[0] == '\r' {
      assert !(|s| > 1 && s[1] == '\n') by {
        if |s| > 1 {
          assert s[..2] != "\r\n";
        }
      }
      ReplaceAtFront(t, "\r", "\n");
    } else {
      ReplaceSkipsFront(t, "\r", "\n");
    }
  }

  /** Reading back what was read in text mode changes nothing more. */
  lemma ReadTextIdempotent(s: string)
    ensures ReadText(ReadText(s)) == ReadText(s)
  {
  }

  // ----- `replace_project_dir` -----

  /** The file map and the exception, if one escaped, after a run. */
  datatype Ran = Ran(files: map<string, string>, fault: Option<Fault>)

  /**
   * `replace_project_dir(target, …)`: glob `target`, then handle each match in order. `depth` is
   * what is left of the interpreter's recursion budget; when it is spent, `RecursionError` escapes.
   */
  function ReplaceDir(files: map<string, string>, dirs: set<string>, glob: string -> seq<string>,
                      isBinary: (string, string) -> bool, target: string, key: string, value: string, depth: nat): Ran
    decreases depth, 1
  {
    ReplaceMatches(files, dirs, glob, isBinary, glob(target), target, key, value, depth)
  }

  /**
   * The `for file in files` loop: the target directory itself is skipped, another directory is
   * handled by a recursive call, a binary file is skipped and a text file is rewritten in place.
   * A match that is neither a directory nor a file makes `open` raise.
   */
  function ReplaceMatches(files: map<string, string>, dirs: set<string>, glob: string -> seq<string>,
                          isBinary: (string, string) -> bool, ms: seq<string>, target: string, key: string,
                          value: string, depth: nat): Ran
    decreases depth, 0, |ms|
  {
    if ms == [] then Ran(files, None)
    else
      var m := ms[0];
      if Canon(m) in dirs && target == m then
        ReplaceMatches(files, dirs, glob, isBinary, ms[1..], target, key, value, depth)
      else if Canon(m) in dirs then
        if depth == 0 then Ran(files, Some(RecursionLimit))
        else
          var inner := ReplaceDir(files, dirs, glob, isBinary, m, key, value, depth - 1);
          if inner.fault.Some? then inner
          else ReplaceMatches(inner.files, dirs, glob, isBinary, ms[1..], target, key, value, depth)
      else if m !in files then Ran(files, Some(FileNotFound(m)))
      else if isBinary(m, files[m]) then
        ReplaceMatches(files, dirs, glob, isBinary, ms[1..], target, key, value, depth)
      else
        ReplaceMatches(files[m := Rewrite(ReadText(files[m]), key, value)], dirs, glob, isBinary,
                       ms[1..], target, key, value, depth)
  }

  method ReplaceProjectDir(fs: Store, glob: string -> seq<string>, isBinary: (string, string) -> bool,
                           target: string, key: string, value: string, depth: nat) returns (fault: Option<Fault>)
    requires '\\' !in value
    modifies fs
    decreases depth
    ensures fs.dirs == old(fs.dirs)
    ensures Ran(fs.files, fault) == ReplaceDir(old(fs.files), fs.dirs, glob, isBinary, target, key, value, depth)
  {
    var matches := glob(target);
    var i := 0;
    while i < |matches|
      invariant 0 <= i <= |matches|
      invariant fs.dirs == old(fs.dirs)
      invariant ReplaceDir(old(fs.files), fs.dirs, glob, isBinary, target, key, value, depth)
             == ReplaceMatches(fs.files, fs.dirs, glob, isBinary, matches[i..], target, key, value, depth)
    {
      var file := matches[i];
      assert matches[i..][0] == file && matches[i..][1..] == matches[i + 1..];
      if fs.IsDir(file) && target == file {
      } else if fs.IsDir(file) {
        if depth == 0 {
          return Some(RecursionLimit);
        }
        var inner := ReplaceProjectDir(fs, glob, isBinary, file, key, value, depth - 1);
        if inner.Some? {
          return inner;
        }
      } else if file !in fs.files {
        return Some(FileNotFound(file));
      } else if !isBinary(file, fs.files[file]) {
        var content := ReadText(fs.files[file]);
        fs.Put(file, Rewrite(content, key, value));
      }
      i := i + 1;
    }
    return None;
  }

  // ----- what a run of `replace_project_dir` can change -----

  lemma {:induction false} ReplaceDirKeys(files: map<string, string>, dirs: set<string>, glob: string -> seq<string>,
                                          isBinary: (string, string) -> bool, target: string, key: string, value: string, depth: nat)
    ensures ReplaceDir(files, dirs, glob, isBinary, target, key, value, depth).files.Keys == files.Keys
    decreases depth, 1
  {
    ReplaceMatchesKeys(files, dirs, glob, isBinary, glob(target), target, key, value, depth);
  }

  /** Files are only rewritten, never created or deleted. */
  lemma {:induction false} ReplaceMatchesKeys(files: map<string, string>, dirs: set<string>, glob: string -> seq<string>,
                                              isBinary: (string, string) -> bool, ms: seq<string>, target: string,
                                              key: string, value: string, depth: nat)
    ensures ReplaceMatches(files, dirs, glob, isBinary, ms, target, key, value, depth).files.Keys == files.Keys
    decreases depth, 0, |ms|
  {
    if ms != [] {
      var m := ms[0];
      if Canon(m) in dirs && target == m {
        ReplaceMatchesKeys(files, dirs, glob, isBinary, ms[1..], target, key, value, depth);
      } else if Canon(m) in dirs {
        if depth > 0 {
          ReplaceDirKeys(files, dirs, glob, isBinary, m, key, value, depth - 1);
          var inner := ReplaceDir(files, dirs, glob, isBinary, m, key, value, depth - 1);
          ReplaceMatchesKeys(inner.files, dirs, glob, isBinary, ms[1..], target, key, value, depth);
        }
      } else if m in files {
        if isBinary(m, files[m]) {
          ReplaceMatchesKeys(files, dirs, glob, isBinary, ms[1..], target, key, value, depth);
        } else {
          var next := files[m := Rewrite(ReadText(files[m]), key, value)];
          ReplaceMatchesKeys(next, dirs, glob, isBinary, ms[1..], target, key, value, depth);
        }
      }
    }
  }

  /** Every file the binary check flags (on its path and its content) is still there, unchanged. */
  predicate BinaryKept(before: map<string, string>, after: map<string, string>, isBinary: (string, string) -> bool) {
    forall p :: p in before && isBinary(p, before[p]) ==> p in after && after[p] == before[p]
  }

  lemma {:induction false} ReplaceDirKeepsBinary(files: map<string, string>, dirs: set<string>, glob: string -> seq<string>,
                                                 isBinary: (string, string) -> bool, target: string, key: string, value: string, depth: nat)
    ensures BinaryKept(files, ReplaceDir(files, dirs, glob, isBinary, target, key, value, depth).files, isBinary)
    decreases depth, 1
  {
    ReplaceMatchesKeepBinary(files, dirs, glob, isBinary, glob(target), target, key, value, depth);
  }

  /** A binary file is never rewritten, however often and however deep the glob matches it. */
  lemma {:induction false} ReplaceMatchesKeepBinary(files: map<string, string>, dirs: set<string>, glob: string -> seq<string>,
                                                    isBinary: (string, string) -> bool, ms: seq<string>, target: string,
                                                    key: string, value: string, depth: nat)
    ensures BinaryKept(files, ReplaceMatches(files, dirs, glob, isBinary, ms, target, key, value, depth).files, isBinary)
    decreases depth, 0, |ms|
  {
    if ms != [] {
      var m := ms[0];
      if Canon(m) in dirs && target == m {
        ReplaceMatchesKeepBinary(files, dirs, glob, isBinary, ms[1..], target, key, value, depth);
      } else if Canon(m) in dirs {
        if depth > 0 {
          ReplaceDirKeepsBinary(files, dirs, glob, isBinary, m, key, value, depth - 1);
          var inner := ReplaceDir(files, dirs, glob, isBinary, m, key, value, depth - 1);
          ReplaceMatchesKeepBinary(inner.files, dirs, glob, isBinary, ms[1..], target, key, value, depth);
          BinaryKeptTrans(files, inner.files, ReplaceMatches(inner.files, dirs, glob, isBinary, ms[1..], target, key, value, depth).files, isBinary);
        }
      } else if m in files {
        if isBinary(m, files[m]) {
          ReplaceMatchesKeepBinary(files, dirs, glob, isBinary, ms[1..], target, key, value, depth);
        } else {
          var next := files[m := Rewrite(ReadText(files[m]), key, value)];
          ReplaceMatchesKeepBinary(next, dirs, glob, isBinary, ms[1..], target, key, value, depth);
          BinaryKeptTrans(files, next, ReplaceMatches(next, dirs, glob, isBinary, ms[1..], target, key, value, depth).files, isBinary);
        }
      }
    }
  }

  lemma BinaryKeptTrans(a: map<string, string>, b: map<string, string>, c: map<string, string>, isBinary: (string, string) -> bool)
    requires BinaryKept(a, b, isBinary) && BinaryKept(b, c, isBinary)
    ensures BinaryKept(a, c, isBinary)
  {
  }

  /**
   * Reference for what happens when a literal directory path globs to itself: directories are
   * skipped and only the matched files are rewritten.
   */
  function RewriteFiles(files: map<string, string>, dirs: set<string>, isBinary: (string, string) -> bool,
                        ms: seq<string>, key: string, value: string): Ran
    decreases |ms|
  {
    if ms == [] then Ran(files, None)
    else
      var m := ms[0];
      if Canon(m) in dirs then RewriteFiles(files, dirs, isBinary, ms[1..], key, value)
      else if m !in files then Ran(files, Some(FileNotFound(m)))
      else if isBinary(m, files[m]) then RewriteFiles(files, dirs, isBinary, ms[1..], key, value)
      else RewriteFiles(files[m := Rewrite(ReadText(files[m]), key, value)], dirs, isBinary, ms[1..], key, value)
  }

  lemma {:induction false} NoDescentFrom(files: map<string, string>, dirs: set<string>, glob: string -> seq<string>,
                                         isBinary: (string, string) -> bool, ms: seq<string>, target: string,
                                         key: string, value: string, depth: nat)
    requires depth > 0
    requires forall m :: m in ms && Canon(m) in dirs ==> glob(m) == [m]
    ensures ReplaceMatches(files, dirs, glob, isBinary, ms, target, key, value, depth)
         == RewriteFiles(files, dirs, isBinary, ms, key, value)
    decreases |ms|
  {
    if ms != [] {
      var m := ms[0];
      assert m in ms;
      assert forall n :: n in ms[1..] ==> n in ms;
      if Canon(m) in dirs && target != m {
        assert glob(m) == [m];
        assert ReplaceMatches(files, dirs, glob, isBinary, [m], m, key, value, depth - 1)
            == ReplaceMatches(files, dirs, glob, isBinary, [m][1..], m, key, value, depth - 1);
        assert [m][1..] == [];
      }
      if m in files && Canon(m) !in dirs && !isBinary(m, files[m]) {
        var next := files[m := Rewrite(ReadText(files[m]), key, value)];
        NoDescentFrom(next, dirs, glob, isBinary, ms[1..], target, key, value, depth);
      } else {
        NoDescentFrom(files, dirs, glob, isBinary, ms[1..], target, key, value, depth);
      }
    }
  }

  /** With a glob that returns a literal directory path as itself, no directory is descended into. */
  lemma NoDescent(files: map<string, string>, dirs: set<string>, glob: string -> seq<string>,
                  isBinary: (string, string) -> bool, target: string, key: string, value: string, depth: nat)
    requires depth > 0
    requires forall m :: m in glob(target) && Canon(m) in dirs ==> glob(m) == [m]
    ensures ReplaceDir(files, dirs, glob, isBinary, target, key, value, depth)
         == RewriteFiles(files, dirs, isBinary, glob(target), key, value)
  {
    NoDescentFrom(files, dirs, glob, isBinary, glob(target), target, key, value, depth);
  }

  // ----- `replace_project` -----

  /** One entry of `PATTERNS`: config key, file (a glob relative to the instance), JSON key in the regex. */
  datatype Pattern = Pattern(key: string, file: string, jsonKey: string)

  const Patterns: seq<Pattern> := [
    Pattern("Full Name", "MyTestApp/app.json", "name"),
    Pattern("App Name", "MyTestApp/app.json", "displayName"),
    Pattern("App Name", "*", "displayName")
  ]

  /** Every JSON key of `PATTERNS` is plain, so each of its occurrences is replaced. */
  lemma PatternKeysPlain()
    ensures forall i :: 0 <= i < |Patterns| ==> PlainKey(Patterns[i].jsonKey)
  {
  }

  const DefaultKey: string := "Default"

  /** The value for `key`: the config's own, else its `Default`, else none (and the run stops). */
  function Resolve(config: map<string, string>, key: string): (r: Option<string>)
    ensures key in config ==> r == Some(config[key])
    ensures key !in config && DefaultKey in config ==> r == Some(config[DefaultKey])
    ensures r.None? <==> key !in config && DefaultKey !in config
  {
    if key in config then Some(config[key])
    else if DefaultKey in config then Some(config[DefaultKey])
    else None
  }

  /**
   * Every value a pattern resolves to has no backslash: `re.sub` reads a backslash in the
   * replacement as an escape, which is not modelled. Other config values are unconstrained.
   */
  predicate PlainValues(config: map<string, string>) {
    forall i :: 0 <= i < |Patterns| && Resolve(config, Patterns[i].key).Some? ==> '\\' !in Resolve(config, Patterns[i].key).value
  }

  /** `src_dir + pattern["File"]` with every '/' and '\' turned into the separator. */
  function TargetPath(user: string, file: string): string {
    Normalize(Join(InstancesDir, user) + [Sep] + file)
  }

  /** A user name and file without backslashes are joined unchanged under `.instances/`. */
  lemma TargetPathPlain(user: string, file: string)
    requires '\\' !in user && '\\' !in file
    ensures TargetPath(user, file) == Join(InstancesDir, user) + [Sep] + file
  {
    var p := Join(InstancesDir, user) + [Sep] + file;
    assert '\\' !in Join(InstancesDir, user);
    assert forall k :: 0 <= k < |p| ==> p[k] != '\\';
  }

  /** The file map and how `replace_project` ended: True, False, or an exception. */
  datatype Effect = Effect(files: map<string, string>, outcome: Outcome)

  /** The patterns in order; an unresolved key returns False, leaving earlier rewrites in place. */
  function ReplacePatterns(files: map<string, string>, dirs: set<string>, glob: string -> seq<string>,
                           isBinary: (string, string) -> bool, user: string, config: map<string, string>,
                           pats: seq<Pattern>, depth: nat): Effect
    decreases |pats|
  {
    if pats == [] then Effect(files, Returned(true))
    else match Resolve(config, pats[0].key)
      case None => Effect(files, Returned(false))
      case Some(v) =>
        var run := ReplaceDir(files, dirs, glob, isBinary, TargetPath(user, pats[0].file), pats[0].jsonKey, v, depth);
        if run.fault.Some? then Effect(run.files, Raised(run.fault.value))
        else ReplacePatterns(run.files, dirs, glob, isBinary, user, config, pats[1..], depth)
  }

  method ReplaceProject(fs: Store, glob: string -> seq<string>, isBinary: (string, string) -> bool,
                        user: string, config: map<string, string>, depth: nat) returns (outcome: Outcome)
    requires PlainValues(config)
    modifies fs
    ensures fs.dirs == old(fs.dirs)
    ensures Effect(fs.files, outcome) == ReplacePatterns(old(fs.files), fs.dirs, glob, isBinary, user, config, Patterns, depth)
  {
    var srcDir := Join(InstancesDir, user) + [Sep];
    var i := 0;
    while i < |Patterns|
      invariant 0 <= i <= |Patterns|
      invariant fs.dirs == old(fs.dirs)
      invariant ReplacePatterns(old(fs.files), fs.dirs, glob, isBinary, user, config, Patterns, depth)
             == ReplacePatterns(fs.files, fs.dirs, glob, isBinary, user, config, Patterns[i..], depth)
    {
      var pattern := Patterns[i];
      assert Patterns[i..][0] == pattern && Patterns[i..][1..] == Patterns[i + 1..];
      var targetPath := srcDir + pattern.file;
      targetPath := ReplaceAll(targetPath, "/", [Sep]);
      targetPath := ReplaceAll(targetPath, "\\", [Sep]);
      assert targetPath == TargetPath(user, pattern.file);
      var value;
      if pattern.key in config {
        value := config[pattern.key];
      } else if DefaultKey in config {
        value := config[DefaultKey];
      } else {
        return Returned(false);
      }
      assert '\\' !in value by {
        assert value == Resolve(config, Patterns[i].key).value;
      }
      var fault := ReplaceProjectDir(fs, glob, isBinary, targetPath, pattern.jsonKey, value, depth);
      if fault.Some? {
        return Raised(fault.value);
      }
      i := i + 1;
    }
    return Returned(true);
  }

  // ----- what `replace_project` promises -----

  /** False is returned only when some pattern's key and `Default` are both missing. */
  lemma {:induction false} FalseMeansUnresolved(files: map<string, string>, dirs: set<string>, glob: string -> seq<string>,
                                                isBinary: (string, string) -> bool, user: string, config: map<string, string>,
                                                pats: seq<Pattern>, depth: nat)
    requires ReplacePatterns(files, dirs, glob, isBinary, user, config, pats, depth).outcome == Returned(false)
    ensures DefaultKey !in config
    ensures exists i :: 0 <= i < |pats| && pats[i].key !in config
    decreases |pats|
  {
    if Resolve(config, pats[0].key).Some? {
      var v := Resolve(config, pats[0].key).value;
      var run := ReplaceDir(files, dirs, glob, isBinary, TargetPath(user, pats[0].file), pats[0].jsonKey, v, depth);
      FalseMeansUnresolved(run.files, dirs, glob, isBinary, user, config, pats[1..], depth);
      var i :| 0 <= i < |pats[1..]| && pats[1..][i].key !in config;
      assert pats[i + 1].key !in config;
    } else {
      assert pats[0].key !in config;
    }
  }

  /**
   * At the first pattern whose value cannot be resolved the run stops with False: that pattern and
   * the later ones are not applied, and what the earlier ones rewrote stays rewritten.
   */
  lemma {:induction false} StopsAtUnresolved(files: map<string, string>, dirs: set<string>, glob: string -> seq<string>,
                                             isBinary: (string, string) -> bool, user: string, config: map<string, string>,
                                             pats: seq<Pattern>, i: nat, depth: nat)
    requires i < |pats| && Resolve(config, pats[i].key).None?
    requires ReplacePatterns(files, dirs, glob, isBinary, user, config, pats[..i], depth).outcome == Returned(true)
    ensures ReplacePatterns(files, dirs, glob, isBinary, user, config, pats, depth)
         == Effect(ReplacePatterns(files, dirs, glob, isBinary, user, config, pats[..i], depth).files, Returned(false))
    decreases i
  {
    if i > 0 {
      assert pats[..i][0] == pats[0] && pats[..i][1..] == pats[1..][..i - 1];
      var v := Resolve(config, pats[0].key).value;
      var run := ReplaceDir(files, dirs, glob, isBinary, TargetPath(user, pats[0].file), pats[0].jsonKey, v, depth);
      assert pats[1..][i - 1] == pats[i];
      StopsAtUnresolved(run.files, dirs, glob, isBinary, user, config, pats[1..], i - 1, depth);
    }
  }

  /** With neither `Full Name` nor `Default`, nothing at all is rewritten. */
  lemma NothingWithoutFullName(files: map<string, string>, dirs: set<string>, glob: string -> seq<string>,
                               isBinary: (string, string) -> bool, user: string, config: map<string, string>, depth: nat)
    requires "Full Name" !in config && DefaultKey !in config
    ensures ReplacePatterns(files, dirs, glob, isBinary, user, config, Patterns, depth) == Effect(files, Returned(false))
  {
  }

  /** `replace_project` never creates or deletes a file, and never changes a binary one. */
  lemma {:induction false} ReplacePatternsPreserves(files: map<string, string>, dirs: set<string>, glob: string -> seq<string>,
                                                    isBinary: (string, string) -> bool, user: string, config: map<string, string>,
                                                    pats: seq<Pattern>, depth: nat)
    ensures ReplacePatterns(files, dirs, glob, isBinary, user, config, pats, depth).files.Keys == files.Keys
    ensures BinaryKept(files, ReplacePatterns(files, dirs, glob, isBinary, user, config, pats, depth).files, isBinary)
    decreases |pats|
  {
    if pats != [] && Resolve(config, pats[0].key).Some? {
      var v := Resolve(config, pats[0].key).value;
      var target := TargetPath(user, pats[0].file);
      var run := ReplaceDir(files, dirs, glob, isBinary, target, pats[0].jsonKey, v, depth);
      ReplaceDirKeys(files, dirs, glob, isBinary, target, pats[0].jsonKey, v, depth);
      ReplaceDirKeepsBinary(files, dirs, glob, isBinary, target, pats[0].jsonKey, v, depth);
      if run.fault.None? {
        ReplacePatternsPreserves(run.files, dirs, glob, isBinary, user, config, pats[1..], depth);
        BinaryKeptTrans(files, run.files, ReplacePatterns(run.files, dirs, glob, isBinary, user, config, pats[1..], depth).files, isBinary);
      }
    }
  }
}
