/** POSIX path strings as `os.path` builds them (the host's `os.sep` is '/'). */
module Paths {
  import opened Strings

  const Sep: char := '/'

  /** `os.path.join(a, b)` on POSIX: an absolute `b` wins, otherwise one separator goes between. */
  function Join(a: string, b: string): string {
    if b != [] && b[0] == Sep then b
    else if a == [] || a[|a| - 1] == Sep then a + b
    else a + [Sep] + b
  }

  /** `str.replace(a, b)` for one-character strings maps each character on its own. */
  lemma {:induction false} ReplaceOneChar(s: string, a: char, b: char)
    ensures |ReplaceAll(s, [a], [b])| == |s|
    ensures forall k :: 0 <= k < |s| ==> ReplaceAll(s, [a], [b])[k] == (if s[k] == a then b else s[k])
  {
    if |s| >= 1 {
      ReplaceOneChar(s[1..], a, b);
      assert s[..1] == [s[0]];
      var tail := ReplaceAll(s[1..], [a], [b]);
      assert ReplaceAll(s, [a], [b]) == [if s[0] == a then b else s[0]] + tail;
    }
  }

  /** The two `str.replace` calls that turn every '/' and every '\' into `os.sep`. */
  function Normalize(p: string): (r: string)
    ensures |r| == |p|
    ensures forall k :: 0 <= k < |p| ==> r[k] == (if p[k] == '/' || p[k] == '\\' then Sep else p[k])
    ensures '\\' !in r
  {
    var q := ReplaceAll(p, "/", [Sep]);
    ReplaceOneChar(p, '/', Sep);
    ReplaceOneChar(q, '\\', Sep);
    ReplaceAll(q, "\\", [Sep])
  }

  /** The path with its trailing separators dropped (the root "/" is kept). */
  function Canon(p: string): (r: string)
    ensures |r| <= |p| && r == p[..|r|]
    ensures |r| <= 1 || r[|r| - 1] != Sep
  {
    if |p| > 1 && p[|p| - 1] == Sep then Canon(p[..|p| - 1]) else p
  }

  /** The directories `os.makedirs(p, exist_ok=True)` leaves in place: `p` and each of its ancestors. */
  function DirsOf(p: string): (r: set<string>)
    ensures Canon(p) != [] ==> Canon(p) in r
    ensures forall k :: 0 < k < |Canon(p)| && Canon(p)[k] == Sep && Canon(p)[k - 1] != Sep ==> Canon(p)[..k] in r
    ensures forall d :: d in r ==> d != [] && |d| <= |Canon(p)| && d == Canon(p)[..|d|]
                                   && (|d| == |Canon(p)| || Canon(p)[|d|] == Sep)
  {
    var q := Canon(p);
    assert q != [] ==> (q[..|q|] == q && (|q| == 1 || q[|q| - 1] != Sep));
    set k | 0 < k <= |q| && (k == |q| || q[k] == Sep) && (k == 1 || q[k - 1] != Sep) :: q[..k]
  }
}
