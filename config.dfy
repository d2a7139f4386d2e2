/**
 * Config extraction: `has_config` and `get_config` in script.py.
 *
 * A config block is found by `re.search("--- start config ---(.*)--- end config ---", text,
 * re.DOTALL)`: the leftmost start sentinel, then the greedy `.*` runs to the LAST end sentinel
 * after it. Inside the block, `re.findall(r"([a-zA-Z0-9 ]+): (.*)", block)` yields the pairs;
 * each value is stripped, loses every carriage return, and goes into a dictionary.
 */
module Config {
  import opened Common
  import opened Strings

  const StartMark: string := "--- start config ---"
  const EndMark: string := "--- end config ---"

  /** Group 1 of the sentinel regex: what lies between the first start and the last end after it. */
  function ConfigBlock(t: string): Option<string> {
    match IndexOf(t, StartMark, 0)
    case None => None
    case Some(i) =>
      match LastIndexOf(t, EndMark, i + |StartMark|)
      case None => None
      case Some(j) => Some(t[i + |StartMark|..j])
  }

  /** `has_config`: the sentinel regex matches somewhere. */
  predicate HasConfig(t: string) {
    ConfigBlock(t).Some?
  }

  /** The regex matches exactly when some start sentinel is followed, after its end, by an end sentinel. */
  lemma HasConfigIff(t: string)
    ensures HasConfig(t) <==>
      exists i: nat, j: nat :: OccursAt(t, StartMark, i) && i + |StartMark| <= j && OccursAt(t, EndMark, j)
  {
    if exists i: nat, j: nat :: OccursAt(t, StartMark, i) && i + |StartMark| <= j && OccursAt(t, EndMark, j) {
      var i: nat, j: nat :| OccursAt(t, StartMark, i) && i + |StartMark| <= j && OccursAt(t, EndMark, j);
      var first := IndexOf(t, StartMark, 0);
      assert first.Some? && first.value <= i;
      var last := LastIndexOf(t, EndMark, first.value + |StartMark|);
      assert last.Some?;
    }
  }

  /** The block runs from just after the first start sentinel up to the last end sentinel. */
  lemma BlockBetween(t: string, i: nat, j: nat)
    requires OccursAt(t, StartMark, i) && forall k: nat :: k < i ==> !OccursAt(t, StartMark, k)
    requires OccursAt(t, EndMark, j) && forall k :: j < k ==> !OccursAt(t, EndMark, k)
    requires i + |StartMark| <= j
    ensures ConfigBlock(t) == Some(t[i + |StartMark|..j])
  {
    var first := IndexOf(t, StartMark, 0);
    assert first == Some(i);
    var last := LastIndexOf(t, EndMark, i + |StartMark|);
    assert last == Some(j);
  }

  predicate IsKeyChar(c: char) {
    'a' <= c <= 'z' || 'A' <= c <= 'Z' || '0' <= c <= '9' || c == ' '
  }

  /** A key `[a-zA-Z0-9 ]+` can capture. */
  predicate ValidKey(k: string) {
    k != [] && forall i :: 0 <= i < |k| ==> IsKeyChar(k[i])
  }

  /** The length of the longest prefix of key characters (what greedy `[a-zA-Z0-9 ]+` consumes). */
  function KeyRun(t: string): (n: nat)
    ensures n <= |t|
  {
    if t != [] && IsKeyChar(t[0]) then 1 + KeyRun(t[1..]) else 0
  }

  /** `n` is the key run of `t` exactly when `t` has key characters before `n` and none at `n`. */
  lemma {:induction false} KeyRunIs(t: string, n: nat)
    ensures KeyRun(t) == n <==>
      n <= |t| && (forall k :: 0 <= k < n ==> IsKeyChar(t[k])) && (n == |t| || !IsKeyChar(t[n]))
    decreases |t|
  {
    if t != [] && IsKeyChar(t[0]) {
      if n > 0 {
        KeyRunIs(t[1..], n - 1);
        assert forall k :: 0 < k < |t| ==> t[k] == t[1..][k - 1];
      }
    }
  }

  /** The length of the prefix before the first newline (what `.*` consumes without DOTALL). */
  function LineLen(t: string): (n: nat)
    ensures n <= |t|
  {
    if t != [] && t[0] != '\n' then 1 + LineLen(t[1..]) else 0
  }

  /** `n` is the line length of `t` exactly when no newline comes before `n` and one is at `n`, or `t` ends. */
  lemma {:induction false} LineLenIs(t: string, n: nat)
    ensures LineLen(t) == n <==>
      n <= |t| && (forall k :: 0 <= k < n ==> t[k] != '\n') && (n == |t| || t[n] == '\n')
    decreases |t|
  {
    if t != [] && t[0] != '\n' {
      if n > 0 {
        LineLenIs(t[1..], n - 1);
        assert forall k :: 0 < k < |t| ==> t[k] == t[1..][k - 1];
      }
    }
  }

  /** One tuple of `re.findall`: group 1 and group 2. */
  datatype Entry = Entry(key: string, value: string)

  /** A match of the line regex at index 0 and the index just past it. */
  datatype Hit = Hit(entry: Entry, end: nat)

  /**
   * The line regex anchored at index 0. Since ':' is not a key character, only the maximal run
   * of key characters can be followed by ": ", so no backtracking choice remains.
   */
  function MatchHere(t: string): (r: Option<Hit>)
    ensures r.Some? ==> 0 < r.value.end <= |t|
  {
    var k := KeyRun(t);
    if 0 < k && k + 2 <= |t| && t[k] == ':' && t[k + 1] == ' ' then
      var v := LineLen(t[k + 2..]);
      Some(Hit(Entry(t[..k], t[k + 2..k + 2 + v]), k + 2 + v))
    else None
  }

  /** A match has a key of key characters and a value without a newline. */
  lemma MatchHereShape(t: string)
    ensures MatchHere(t).Some? ==> ValidKey(MatchHere(t).value.entry.key) && '\n' !in MatchHere(t).value.entry.value
  {
    var k := KeyRun(t);
    if 0 < k && k + 2 <= |t| && t[k] == ':' && t[k + 1] == ' ' {
      var v := LineLen(t[k + 2..]);
      KeyRunIs(t, k);
      LineLenIs(t[k + 2..], v);
      var e := MatchHere(t).value.entry;
      assert e.key == t[..k] && e.value == t[k + 2..][..v];
    }
  }

  /** `re.findall`: try a match at each index from the left; after a match resume at its end. */
  function FindAll(t: string): (r: seq<Entry>)
    decreases |t|
    ensures forall e :: e in r ==> ValidKey(e.key) && '\n' !in e.value
  {
    if t == [] then []
    else
      MatchHereShape(t);
      match MatchHere(t)
      case Some(h) => [h.entry] + FindAll(t[h.end..])
      case None => FindAll(t[1..])
  }

  /** Where the line regex does not match at index 0, `findall` moves on by one character. */
  lemma FindAllSkip(t: string)
    requires t != [] && MatchHere(t).None?
    ensures FindAll(t) == FindAll(t[1..])
  {
  }

  /** A key run stopped by a character other than ':' gives no match at index 0. */
  lemma NoMatchBefore(t: string, n: nat)
    requires n < |t| && t[n] != ':' && !IsKeyChar(t[n]) && forall k :: 0 <= k < n ==> IsKeyChar(t[k])
    ensures MatchHere(t).None?
  {
    KeyRunIs(t, n);
  }

  /** `findall` steps over a stretch of indices where the line regex does not match. */
  lemma {:induction false} FindAllDrop(t: string, n: nat)
    requires n <= |t| && forall j :: 0 <= j < n ==> MatchHere(t[j..]).None?
    ensures FindAll(t) == FindAll(t[n..])
    decreases n
  {
    if n > 0 {
      assert t[0..] == t;
      FindAllSkip(t);
      forall j | 0 <= j < n - 1 ensures MatchHere(t[1..][j..]).None? {
        assert t[1..][j..] == t[j + 1..];
      }
      FindAllDrop(t[1..], n - 1);
      assert t[1..][n - 1..] == t[n..];
    }
  }

  /** No match at `j` when the key run from `j` ends at a character other than ':'. */
  lemma NoMatchAt(t: string, j: nat, n: nat)
    requires j + n < |t| && t[j + n] != ':' && !IsKeyChar(t[j + n])
    requires forall k :: j <= k < j + n ==> IsKeyChar(t[k])
    ensures MatchHere(t[j..]).None?
  {
    assert forall k :: 0 <= k <= n ==> t[j..][k] == t[j + k];
    NoMatchBefore(t[j..], n);
  }

  /**
   * The key group can start in the middle of a word: `findall` tries every index from the left,
   * so in `foo-bar: x` the run `foo` fails at '-' and the key found is `bar`.
   */
  lemma FindAllMidWord()
    ensures FindAll("foo-bar: x") == [Entry("bar", "x")]
  {
    MidWordNoMatch();
    FindAllDrop("foo-bar: x", 4);
    MidWordTail();
    FindAllLast(Entry("bar", "x"));
  }

  /** Proof helper for `FindAllMidWord`: no line match starts inside `foo-`; kept apart for cost. */
  lemma MidWordNoMatch()
    ensures forall j :: 0 <= j < 4 ==> MatchHere("foo-bar: x"[j..]).None?
  {
    var t := "foo-bar: x";
    forall j | 0 <= j < 4 ensures MatchHere(t[j..]).None? {
      NoMatchAt(t, j, 3 - j);
    }
  }

  /** Proof helper for `FindAllMidWord`: the literal facts about `bar: x`, kept apart for cost. */
  lemma MidWordTail()
    ensures "foo-bar: x"[4..] == "bar" + ": " + "x"
    ensures ValidKey("bar") && '\n' !in "x"
  {
  }

  /** A last line `K: V` without a newline yields exactly its entry. */
  lemma FindAllLast(e: Entry)
    requires ValidKey(e.key) && '\n' !in e.value
    ensures FindAll(e.key + ": " + e.value) == [e]
  {
    var t := e.key + ": " + e.value;
    var k, v := |e.key|, |e.value|;
    assert KeyRun(t) == k by {
      assert t == e.key + ": " + e.value;
      KeyRunOfKey(e.key, e.value);
    }
    assert t[k + 2..] == e.value;
    assert LineLen(t[k + 2..]) == v by {
      LineLenIs(e.value, v);
    }
    MatchHereAt(t, k, v);
    assert t[..k] == e.key && t[k + 2..k + 2 + v] == e.value;
    FindAllAtHit(t);
    assert t[k + 2 + v..] == [];
  }

  /** A character absent from the text is absent from every value `findall` captures. */
  lemma {:induction false} FindAllAvoids(t: string, c: char)
    requires c !in t
    ensures forall e :: e in FindAll(t) ==> c !in e.value
    decreases |t|
  {
    if t != [] {
      match MatchHere(t)
      case Some(h) =>
        var k := KeyRun(t);
        var v := LineLen(t[k + 2..]);
        assert h.entry.value == t[k + 2..k + 2 + v];
        assert c !in t[h.end..];
        FindAllAvoids(t[h.end..], c);
      case None =>
        assert c !in t[1..];
        FindAllAvoids(t[1..], c);
    }
  }

  /** `value.strip().replace('\r', '')`. */
  function Clean(v: string): (r: string)
    ensures Trimmed(r) && '\r' !in r
    ensures forall c :: c in r ==> c in v
    ensures Trimmed(v) && '\r' !in v ==> r == v
  {
    assert IsSpace('\r');
    RemoveCharEnds(Strip(v), '\r');
    RemoveChar(Strip(v), '\r')
  }

  /** Blanks around a clean value are cut off, so `K:   V  ` gives the same value as `K: V`. */
  lemma CleanPadded(pre: string, v: string, post: string)
    requires Trimmed(v) && '\r' !in v
    requires forall i :: 0 <= i < |pre| ==> IsSpace(pre[i])
    requires forall i :: 0 <= i < |post| ==> IsSpace(post[i])
    ensures Clean(pre + v + post) == v
  {
    StripPadded(pre, v, post);
  }

  /** The `\r` a CRLF line leaves at the end of its value makes no difference. */
  lemma CleanTrailingCR(v: string)
    ensures Clean(v + "\r") == Clean(v)
  {
    assert "\r" == ['\r'];
    StripSpaceEnd(v, '\r');
  }

  function KeysOf(es: seq<Entry>): set<string> {
    set e | e in es :: e.key
  }

  /** The dictionary the loop of `get_config` fills: entries in order, a later key overwriting. */
  function Collect(es: seq<Entry>): (m: map<string, string>)
    decreases |es|
    ensures m.Keys == KeysOf(es)
    ensures forall k :: k in m ==> Trimmed(m[k]) && '\r' !in m[k]
    ensures (forall e :: e in es ==> '\n' !in e.value) ==> forall k :: k in m ==> '\n' !in m[k]
  {
    if es == [] then map[]
    else
      var init := es[..|es| - 1];
      var last := es[|es| - 1];
      LastEntry(es);
      Collect(init)[last.key := Clean(last.value)]
  }

  /** The entries are those before the last one, and the last one. */
  lemma LastEntry(es: seq<Entry>)
    requires es != []
    ensures forall e :: e in es <==> e in es[..|es| - 1] || e == es[|es| - 1]
    ensures KeysOf(es) == KeysOf(es[..|es| - 1]) + {es[|es| - 1].key}
  {
    assert es == es[..|es| - 1] + [es[|es| - 1]];
  }

  /** `get_config` as a value: None without a block, otherwise the parsed dictionary. */
  function ParseConfig(t: string): (r: Option<map<string, string>>)
    ensures r.None? <==> !HasConfig(t)
    ensures r.Some? ==> forall k :: k in r.value ==> ValidKey(k)
    ensures r.Some? ==> forall k :: k in r.value ==> Trimmed(r.value[k]) && '\r' !in r.value[k] && '\n' !in r.value[k]
  {
    match ConfigBlock(t)
    case None => None
    case Some(b) => Some(Collect(FindAll(b)))
  }

  lemma {:induction false} CollectAvoids(es: seq<Entry>, c: char)
    requires forall e :: e in es ==> c !in e.value
    ensures forall k :: k in Collect(es) ==> c !in Collect(es)[k]
    decreases |es|
  {
    if es != [] {
      var init := es[..|es| - 1];
      assert forall e :: e in init ==> e in es;
      CollectAvoids(init, c);
      assert es[|es| - 1] in es;
    }
  }

  /** A character absent from the text is absent from every parsed value. */
  lemma ParsedValuesAvoid(t: string, c: char)
    requires c !in t
    ensures ParseConfig(t).Some? ==> forall k :: k in ParseConfig(t).value ==> c !in ParseConfig(t).value[k]
  {
    if ConfigBlock(t).Some? {
      var b := ConfigBlock(t).value;
      assert forall x :: x in b ==> x in t;
      FindAllAvoids(b, c);
      CollectAvoids(FindAll(b), c);
    }
  }

  /** `get_config`: the loop over the `findall` tuples fills the dictionary `keys`. */
  method GetConfig(text: string) returns (config: Option<map<string, string>>)
    ensures config == ParseConfig(text)
    ensures config.None? <==> !HasConfig(text)
  {
    if !HasConfig(text) {
      return None;
    }
    var entries := FindAll(ConfigBlock(text).value);
    var keys: map<string, string> := map[];
    var i := 0;
    while i < |entries|
      invariant 0 <= i <= |entries|
      invariant keys == Collect(entries[..i])
    {
      var value := RemoveChar(Strip(entries[i].value), '\r');
      keys := keys[entries[i].key := value];
      CollectStep(entries, i);
      i := i + 1;
    }
    assert entries[..|entries|] == entries;
    config := Some(keys);
  }

  lemma CollectStep(es: seq<Entry>, i: nat)
    requires i < |es|
    ensures Collect(es[..i + 1]) == Collect(es[..i])[es[i].key := Clean(es[i].value)]
  {
    assert es[..i + 1][..i] == es[..i];
  }

  /** Of several entries with one key, the last one gives the value. */
  lemma {:induction false} LastDuplicateWins(es: seq<Entry>, i: nat)
    requires i < |es|
    requires forall j :: i < j < |es| ==> es[j].key != es[i].key
    ensures es[i].key in Collect(es) && Collect(es)[es[i].key] == Clean(es[i].value)
  {
    if i < |es| - 1 {
      var init := es[..|es| - 1];
      LastDuplicateWins(init, i);
    }
  }

  /** No index of `b` starts a key/value line. */
  predicate NoEntryLine(b: string) {
    forall k :: 0 <= k < |b| ==> MatchHere(b[k..]).None?
  }

  lemma {:induction false} FindAllNone(b: string)
    requires NoEntryLine(b)
    ensures FindAll(b) == []
  {
    if b != [] {
      assert MatchHere(b[0..]).None?;
      assert b[0..] == b;
      forall k | 0 <= k < |b| - 1 ensures MatchHere(b[1..][k..]).None? {
        assert b[1..][k..] == b[k + 1..];
      }
      FindAllNone(b[1..]);
    }
  }

  /** A block with no key/value line gives the empty dictionary, which is not "no config". */
  lemma EmptyBlockIsEmptyMap(t: string)
    requires HasConfig(t) && NoEntryLine(ConfigBlock(t).value)
    ensures ParseConfig(t) == Some(map[])
  {
    FindAllNone(ConfigBlock(t).value);
  }

  /** The text format: the start sentinel, a newline, one "K: V" line per entry, the end sentinel. */
  function Lines(es: seq<Entry>): string {
    if es == [] then "" else es[0].key + ": " + es[0].value + "\n" + Lines(es[1..])
  }

  function Serialize(es: seq<Entry>): string {
    StartMark + "\n" + Lines(es) + EndMark
  }

  /** Entries whose lines the line regex reads back: a valid key, a value on one line. */
  predicate OneLine(es: seq<Entry>) {
    forall e :: e in es ==> ValidKey(e.key) && '\n' !in e.value
  }

  /** Entries that survive a round trip unchanged: key characters only, values trimmed, one line. */
  predicate Serializable(es: seq<Entry>) {
    forall e :: e in es ==> ValidKey(e.key) && Trimmed(e.value) && '\n' !in e.value && '\r' !in e.value
  }

  /** Between a leading start sentinel and a closing end sentinel lies the block. */
  lemma BlockOf(mid: string)
    ensures ConfigBlock(StartMark + mid + EndMark) == Some(mid)
  {
    var s := StartMark + mid + EndMark;
    var j := |s| - |EndMark|;
    assert s[..|StartMark|] == StartMark;
    assert s[j..] == EndMark;
    assert OccursAt(s, StartMark, 0);
    assert OccursAt(s, EndMark, j);
    BlockBetween(s, 0, j);
    assert s[|StartMark|..j] == mid;
  }

  lemma SerializedBlock(es: seq<Entry>)
    ensures ConfigBlock(Serialize(es)) == Some("\n" + Lines(es))
  {
    assert Serialize(es) == StartMark + ("\n" + Lines(es)) + EndMark;
    BlockOf("\n" + Lines(es));
  }

  /** The key run of `k + ": " + rest` is exactly the key. */
  lemma KeyRunOfKey(k: string, rest: string)
    requires ValidKey(k)
    ensures KeyRun(k + ": " + rest) == |k|
  {
    var t := k + ": " + rest;
    assert forall j :: 0 <= j < |k| ==> t[j] == k[j];
    assert t[|k|] == ':';
    KeyRunIs(t, |k|);
  }

  /** The line of `v + "\n" + rest` is exactly `v`. */
  lemma LineLenOfLine(v: string, rest: string)
    requires '\n' !in v
    ensures LineLen(v + "\n" + rest) == |v|
  {
    var u := v + "\n" + rest;
    assert forall j :: 0 <= j < |v| ==> u[j] == v[j];
    assert u[|v|] == '\n';
    LineLenIs(u, |v|);
  }

  /** The line regex matches at index 0 once its key run and its line are known. */
  lemma MatchHereAt(t: string, k: nat, v: nat)
    requires 0 < k && k + 2 <= |t| && t[k] == ':' && t[k + 1] == ' '
    requires KeyRun(t) == k && LineLen(t[k + 2..]) == v
    ensures MatchHere(t) == Some(Hit(Entry(t[..k], t[k + 2..k + 2 + v]), k + 2 + v))
  {
    var r := MatchHere(t);
    assert r.Some?;
    assert r.value.end == k + 2 + v;
    assert r.value.entry == Entry(t[..k], t[k + 2..k + 2 + v]);
  }

  /** A serialised line matches the line regex with exactly its key and value. */
  lemma MatchLine(e: Entry, rest: string)
    requires ValidKey(e.key) && '\n' !in e.value
    ensures MatchHere(e.key + ": " + e.value + "\n" + rest) == Some(Hit(e, |e.key| + 2 + |e.value|))
  {
    var t := e.key + ": " + e.value + "\n" + rest;
    var k, v := |e.key|, |e.value|;
    assert t == e.key + ": " + (e.value + "\n" + rest);
    assert KeyRun(t) == k by {
      KeyRunOfKey(e.key, e.value + "\n" + rest);
    }
    assert t[k] == ':' && t[k + 1] == ' ';
    assert LineLen(t[k + 2..]) == v by {
      assert t[k + 2..] == e.value + "\n" + rest;
      LineLenOfLine(e.value, rest);
    }
    assert t[..k] == e.key;
    assert t[k + 2..k + 2 + v] == e.value;
    MatchHereAt(t, k, v);
  }

  /** A newline never starts a match, so `findall` steps over it. */
  lemma SkipNewline(rest: string)
    ensures FindAll("\n" + rest) == FindAll(rest)
  {
    var nl := "\n" + rest;
    assert MatchHere(nl).None?;
    assert nl[1..] == rest;
  }

  /** `findall` over a serialised line yields its entry, then goes on after the newline. */
  lemma FindAllLine(e: Entry, rest: string)
    requires ValidKey(e.key) && '\n' !in e.value
    ensures FindAll(e.key + ": " + e.value + "\n" + rest) == [e] + FindAll(rest)
  {
    var t := e.key + ": " + e.value + "\n" + rest;
    MatchLine(e, rest);
    var n := |e.key| + 2 + |e.value|;
    assert t[n..] == "\n" + rest;
    FindAllAfterHit(t, e, n, rest);
  }

  /** After a match at index 0 that ends just before a newline, `findall` goes on past the newline. */
  lemma FindAllAfterHit(t: string, e: Entry, n: nat, rest: string)
    requires MatchHere(t) == Some(Hit(e, n)) && n <= |t| && t[n..] == "\n" + rest
    ensures FindAll(t) == [e] + FindAll(rest)
  {
    SkipNewline(rest);
    FindAllAtHit(t);
  }

  /** `findall` after a match at index 0: its tuple, then the search from the match's end. */
  lemma FindAllAtHit(t: string)
    requires MatchHere(t).Some?
    ensures FindAll(t) == [MatchHere(t).value.entry] + FindAll(t[MatchHere(t).value.end..])
  {
  }

  lemma {:induction false} FindAllLines(es: seq<Entry>)
    requires OneLine(es)
    ensures FindAll(Lines(es)) == es
  {
    if es != [] {
      var e := es[0];
      assert e in es;
      FindAllLine(e, Lines(es[1..]));
      assert OneLine(es[1..]) by {
        assert forall x :: x in es[1..] ==> x in es;
      }
      FindAllLines(es[1..]);
    }
  }

  lemma {:induction false} CollectClean(es: seq<Entry>)
    requires Serializable(es)
    requires forall i, j :: 0 <= i < j < |es| ==> es[i].key != es[j].key
    ensures Collect(es).Keys == KeysOf(es)
    ensures forall i :: 0 <= i < |es| ==> Collect(es)[es[i].key] == es[i].value
  {
    forall i | 0 <= i < |es| ensures Collect(es)[es[i].key] == es[i].value {
      LastDuplicateWins(es, i);
      assert es[i] in es;
    }
  }

  /**
   * Round trip: serialising entries with distinct valid keys and trimmed one-line values, then
   * parsing, gives back exactly those keys and values.
   */
  lemma RoundTrip(es: seq<Entry>)
    requires Serializable(es)
    requires forall i, j :: 0 <= i < j < |es| ==> es[i].key != es[j].key
    ensures ParseConfig(Serialize(es)).Some?
    ensures ParseConfig(Serialize(es)).value.Keys == KeysOf(es)
    ensures forall i :: 0 <= i < |es| ==> ParseConfig(Serialize(es)).value[es[i].key] == es[i].value
  {
    SerializedBlock(es);
    var b := "\n" + Lines(es);
    SkipNewline(Lines(es));
    FindAllLines(es);
    assert FindAll(b) == es;
    CollectClean(es);
  }

  // ----- CRLF text -----

  /** The text format with `\r\n` line endings, as a GitHub issue body usually has them. */
  function CrlfLines(es: seq<Entry>): string {
    if es == [] then "" else es[0].key + ": " + es[0].value + "\r\n" + CrlfLines(es[1..])
  }

  function SerializeCrlf(es: seq<Entry>): string {
    StartMark + "\r\n" + CrlfLines(es) + EndMark
  }

  /** The entries `findall` sees in CRLF text: each value keeps the `\r` before the newline. */
  function WithCR(es: seq<Entry>): (r: seq<Entry>)
    ensures |r| == |es| && forall i :: 0 <= i < |es| ==> r[i] == Entry(es[i].key, es[i].value + "\r")
  {
    seq(|es|, i requires 0 <= i < |es| => Entry(es[i].key, es[i].value + "\r"))
  }

  lemma {:induction false} CrlfLinesAre(es: seq<Entry>)
    ensures CrlfLines(es) == Lines(WithCR(es))
    decreases |es|
  {
    if es != [] {
      var e := es[0];
      var w := WithCR(es);
      assert w[0] == Entry(e.key, e.value + "\r");
      assert w[1..] == WithCR(es[1..]);
      CrlfLinesAre(es[1..]);
      var rest := CrlfLines(es[1..]);
      assert e.key + ": " + e.value + "\r\n" + rest == e.key + ": " + (e.value + "\r") + "\n" + rest;
    }
  }

  /** A carriage return never starts a match, so `findall` steps over it. */
  lemma SkipCR(rest: string)
    ensures FindAll("\r" + rest) == FindAll(rest)
  {
    var cr := "\r" + rest;
    assert MatchHere(cr).None?;
    assert cr[1..] == rest;
  }

  /** `findall` over CRLF lines yields the entries with their trailing `\r`. */
  lemma FindAllCrlf(es: seq<Entry>)
    requires OneLine(es)
    ensures FindAll("\r\n" + CrlfLines(es)) == WithCR(es)
  {
    var w := WithCR(es);
    assert OneLine(w) by {
      forall e | e in w ensures ValidKey(e.key) && '\n' !in e.value {
        var i :| 0 <= i < |w| && w[i] == e;
        assert es[i] in es;
        assert e.value == es[i].value + "\r";
      }
    }
    CrlfLinesAre(es);
    assert "\r\n" + CrlfLines(es) == "\r" + ("\n" + Lines(w));
    SkipCR("\n" + Lines(w));
    SkipNewline(Lines(w));
    FindAllLines(w);
  }

  /** The dictionary built from CRLF entries: the trailing `\r` is cleaned off every value. */
  lemma CollectCrlf(es: seq<Entry>)
    requires Serializable(es)
    requires forall i, j :: 0 <= i < j < |es| ==> es[i].key != es[j].key
    ensures Collect(WithCR(es)).Keys == KeysOf(es)
    ensures forall i :: 0 <= i < |es| ==> Collect(WithCR(es))[es[i].key] == es[i].value
  {
    var w := WithCR(es);
    assert KeysOf(w) == KeysOf(es) by {
      forall k | k in KeysOf(es) ensures k in KeysOf(w) {
        var e :| e in es && e.key == k;
        var i :| 0 <= i < |es| && es[i] == e;
        assert w[i] in w;
      }
      forall k | k in KeysOf(w) ensures k in KeysOf(es) {
        var e :| e in w && e.key == k;
        var i :| 0 <= i < |w| && w[i] == e;
        assert es[i] in es;
      }
    }
    forall i | 0 <= i < |es| ensures Collect(w)[es[i].key] == es[i].value {
      LastDuplicateWins(w, i);
      CleanTrailingCR(es[i].value);
      assert es[i] in es;
    }
  }

  /** CRLF line endings parse to exactly the dictionary the same lines with `\n` endings give. */
  lemma RoundTripCrlf(es: seq<Entry>)
    requires Serializable(es)
    requires forall i, j :: 0 <= i < j < |es| ==> es[i].key != es[j].key
    ensures ParseConfig(SerializeCrlf(es)) == ParseConfig(Serialize(es))
  {
    var b := "\r\n" + CrlfLines(es);
    assert SerializeCrlf(es) == StartMark + b + EndMark;
    BlockOf(b);
    assert OneLine(es);
    FindAllCrlf(es);
    CollectCrlf(es);
    RoundTrip(es);
    SameMap(Collect(WithCR(es)), ParseConfig(Serialize(es)).value, es);
  }

  /** Two dictionaries with the entries' keys that agree on every entry's key are equal. */
  lemma SameMap(m1: map<string, string>, m2: map<string, string>, es: seq<Entry>)
    requires m1.Keys == KeysOf(es) && m2.Keys == KeysOf(es)
    requires forall i :: 0 <= i < |es| ==> m1[es[i].key] == m2[es[i].key]
    ensures m1 == m2
  {
    forall k | k in m1 ensures m1[k] == m2[k] {
      var e :| e in es && e.key == k;
      var i :| 0 <= i < |es| && es[i] == e;
    }
  }
}
