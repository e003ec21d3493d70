/** The fragment of Python's built-in semantics that the upload handler relies
    on: `None`-able values, truthiness and the `or` chain, and the string
    methods `lower`, `rsplit(sep, 1)` and `rstrip(chars)`. */
module Python {

  /** A value that may be Python's `None`, as returned by `dict.get`. */
  datatype Option<+T> = None | Some(value: T)

  /** Truthiness of an optional string: `None` and `''` are falsy. */
  predicate Truthy(x: Option<string>) {
    x.Some? && x.value != ""
  }

  /** The falsy values are exactly `None` and the empty string. */
  lemma TruthyValues(s: string)
    ensures !Truthy(None) && !Truthy(Some(""))
    ensures s != "" ==> Truthy(Some(s))
  {
  }

  /** The index of the operand that `xs[0] or xs[1] or ... or xs[n-1]`
      evaluates to: the first truthy one, or the last one when none is. */
  function FirstTruthy(xs: seq<Option<string>>): (i: nat)
    requires |xs| > 0
    ensures i < |xs|
    ensures forall j :: 0 <= j < i ==> !Truthy(xs[j])
    ensures Truthy(xs[i]) || i == |xs| - 1
  {
    if |xs| == 1 || Truthy(xs[0]) then 0 else 1 + FirstTruthy(xs[1..])
  }

  /** The value of the expression `xs[0] or xs[1] or ... or xs[n-1]`. */
  function OrChain(xs: seq<Option<string>>): (r: Option<string>)
    requires |xs| > 0
    ensures r in xs
    ensures Truthy(r) || r == xs[|xs| - 1]
    ensures forall j :: 0 <= j < |xs| && Truthy(xs[j]) && (forall i :: 0 <= i < j ==> !Truthy(xs[i]))
                        ==> r == xs[j]
  {
    xs[FirstTruthy(xs)]
  }

  /** `a or b or c` picks `a` when truthy, else `b` when truthy, else `c`. */
  lemma OrChainOfThree(a: Option<string>, b: Option<string>, c: Option<string>)
    ensures Truthy(a) ==> OrChain([a, b, c]) == a
    ensures !Truthy(a) && Truthy(b) ==> OrChain([a, b, c]) == b
    ensures !Truthy(a) && !Truthy(b) ==> OrChain([a, b, c]) == c
  {
    var xs := [a, b, c];
    assert xs[0] == a && xs[1] == b && xs[2] == c;
  }

  /** `str.lower` on one character; only ASCII letters are case-mapped. */
  function LowerChar(c: char): (d: char)
    ensures !('A' <= d <= 'Z')
    ensures !('A' <= c <= 'Z') ==> d == c
    ensures 'A' <= c <= 'Z' ==> 'a' <= d <= 'z' && d as int - 'a' as int == c as int - 'A' as int
  {
    if 'A' <= c <= 'Z' then (c as int - 'A' as int + 'a' as int) as char else c
  }

  /** `s.lower()`: every character lowered, position by position. */
  function Lower(s: string): (r: string)
    ensures |r| == |s|
    ensures forall i :: 0 <= i < |s| ==> r[i] == LowerChar(s[i])
  {
    if s == [] then [] else [LowerChar(s[0])] + Lower(s[1..])
  }

  /** Lowering is idempotent. */
  lemma LowerIdempotent(s: string)
    ensures Lower(Lower(s)) == Lower(s)
  {
  }

  /** A string without upper-case ASCII letters is its own lowering. */
  lemma LowerOfLowerCase(s: string)
    requires forall i :: 0 <= i < |s| ==> !('A' <= s[i] <= 'Z')
    ensures Lower(s) == s
  {
  }

  /** Lowering commutes with taking a suffix. */
  lemma LowerSuffix(s: string, k: nat)
    requires k <= |s|
    ensures Lower(s)[k..] == Lower(s[k..])
  {
  }

  /** Lowering never creates or removes a character that is not an ASCII
      letter, in particular the separator `.`: such a `c` sits in `Lower(s)`
      exactly where it sits in `s`. */
  lemma LowerKeepsNonLetter(s: string, c: char, j: nat)
    requires !('A' <= c <= 'Z') && !('a' <= c <= 'z')
    requires j < |s|
    ensures Lower(s)[j] == c <==> s[j] == c
  {
  }

  /** Position of the last occurrence of `c` in `s`: where `rsplit(c, 1)` cuts. */
  function LastIndexOf(s: string, c: char): (k: nat)
    requires c in s
    ensures k < |s| && s[k] == c
    ensures forall j :: k < j < |s| ==> s[j] != c
  {
    if s[|s| - 1] == c then |s| - 1 else LastIndexOf(s[..|s| - 1], c)
  }

  /** Any position holding `c` with no `c` after it is the last one. */
  lemma LastIndexOfUnique(s: string, c: char, k: nat)
    requires k < |s| && s[k] == c
    requires forall j :: k < j < |s| ==> s[j] != c
    ensures c in s && LastIndexOf(s, c) == k
  {
    assert s[k] in s;
  }

  /** `s.rsplit(sep, 1)`: `[s]` when `sep` does not occur, otherwise the text
      before and the text after the last `sep`. */
  function RSplitOnce(s: string, sep: char): (parts: seq<string>)
    ensures sep !in s ==> parts == [s]
    ensures sep in s ==> |parts| == 2 && s == parts[0] + [sep] + parts[1] && sep !in parts[1]
  {
    if sep in s then
      var k := LastIndexOf(s, sep);
      assert s == s[..k] + [sep] + s[k + 1..];
      [s[..k], s[k + 1..]]
    else
      [s]
  }

  /** The split point is unique: whatever precedes a last separator, the
      second part is exactly what follows it. */
  lemma {:induction false} RSplitOnceOfJoin(before: string, sep: char, after: string)
    requires sep !in after
    ensures RSplitOnce(before + [sep] + after, sep) == [before, after]
  {
    var s := before + [sep] + after;
    forall j | |before| < j < |s| ensures s[j] != sep {
      assert s[j] == after[j - |before| - 1];
    }
    LastIndexOfUnique(s, sep, |before|);
    assert s[..|before|] == before;
    assert s[|before| + 1..] == after;
  }

  /** `s.rstrip(c)` for a single character `c`: drops every trailing `c`. */
  function RStrip(s: string, c: char): (r: string)
    ensures r <= s
    ensures r == [] || r[|r| - 1] != c
    ensures forall j :: |r| <= j < |s| ==> s[j] == c
  {
    if s == [] || s[|s| - 1] != c then s else RStrip(s[..|s| - 1], c)
  }

  /** The three properties of `RStrip` determine its result: the longest
      prefix that does not end in `c` and is followed only by `c`. */
  lemma RStripUnique(s: string, c: char, t: string)
    requires t <= s
    requires t == [] || t[|t| - 1] != c
    requires forall j :: |t| <= j < |s| ==> s[j] == c
    ensures t == RStrip(s, c)
  {
    var r := RStrip(s, c);
    assert |r| == |t|;
  }

  /** Stripping twice strips nothing more. */
  lemma RStripIdempotent(s: string, c: char)
    ensures RStrip(RStrip(s, c), c) == RStrip(s, c)
  {
    var r := RStrip(s, c);
    RStripUnique(r, c, r);
  }

  /** Appending more copies of `c` does not change what `rstrip(c)` returns. */
  lemma RStripIgnoresTrailing(s: string, c: char, n: nat)
    ensures RStrip(s + seq(n, _ => c), c) == RStrip(s, c)
  {
    var tail := seq(n, _ => c);
    var r := RStrip(s, c);
    var u := s + tail;
    forall j | |r| <= j < |u| ensures u[j] == c {
      if j < |s| { assert u[j] == s[j]; } else { assert u[j] == tail[j - |s|]; }
    }
    RStripUnique(u, c, r);
  }

  /** Lowering keeps every non-letter where it was, so the last occurrence
      of such a character is found at the same place. */
  lemma {:induction false} LastIndexOfLower(s: string, c: char)
    requires !('A' <= c <= 'Z') && !('a' <= c <= 'z')
    ensures (c in Lower(s)) == (c in s)
    ensures c in s ==> LastIndexOf(Lower(s), c) == LastIndexOf(s, c)
  {
    var low := Lower(s);
    if c in s {
      var k := LastIndexOf(s, c);
      LowerKeepsNonLetter(s, c, k);
      forall j | k < j < |low| ensures low[j] != c {
        LowerKeepsNonLetter(s, c, j);
      }
      LastIndexOfUnique(low, c, k);
    } else {
      forall j | 0 <= j < |low| ensures low[j] != c {
        LowerKeepsNonLetter(s, c, j);
      }
    }
  }

  /** Splitting on a non-letter separator commutes with lowering. */
  lemma {:induction false} RSplitOnceOfLower(s: string, sep: char)
    requires !('A' <= sep <= 'Z') && !('a' <= sep <= 'z')
    ensures (sep in Lower(s)) == (sep in s)
    ensures sep in s ==> RSplitOnce(Lower(s), sep)[1] == Lower(RSplitOnce(s, sep)[1])
  {
    LastIndexOfLower(s, sep);
    if sep in s {
      var k := LastIndexOf(s, sep);
      assert RSplitOnce(s, sep)[1] == s[k + 1..];
      assert RSplitOnce(Lower(s), sep)[1] == Lower(s)[k + 1..];
      LowerSuffix(s, k + 1);
    }
  }
}
