/** String helpers of the generator: `cap` (upper-case the first character),
    Python's `str.join`, and flattening a sequence of strings. */
module Text {

  predicate IsLower(c: char) {
    'a' <= c <= 'z'
  }

  predicate IsUpper(c: char) {
    'A' <= c <= 'Z'
  }

  /** Upper-cases one character; identifiers in a Cap'n Proto schema are ASCII,
      so only the letters `a`..`z` change. */
  function Upper(c: char): (r: char)
    ensures IsLower(c) ==> IsUpper(r) && r as int - 'A' as int == c as int - 'a' as int
    ensures !IsLower(c) ==> r == c
  {
    if IsLower(c) then (c as int - 'a' as int + 'A' as int) as char else c
  }

  /** `cap(s)`: the first character upper-cased, the rest unchanged. Python
      raises IndexError on the empty string, hence the precondition. */
  function Cap(s: string): (r: string)
    requires |s| > 0
    ensures |r| == |s|
    ensures r[0] == Upper(s[0])
    ensures r[1..] == s[1..]
  {
    [Upper(s[0])] + s[1..]
  }

  /** Capitalising twice is capitalising once. */
  lemma CapIdempotent(s: string)
    requires |s| > 0
    ensures Cap(Cap(s)) == Cap(s)
  {
  }

  /** A name that does not start with a lower-case letter is left as it is
      (`ALREADY` stays `ALREADY`). */
  lemma CapKeepsNonLowerStart(s: string)
    requires |s| > 0 && !IsLower(s[0])
    ensures Cap(s) == s
  {
  }

  /** Two names capitalise to the same key exactly when they differ at most
      in the case of their first letter; such names collide in a field map. */
  lemma CapCollision(a: string, b: string)
    requires |a| > 0 && |b| > 0
    ensures Cap(a) == Cap(b) <==> Upper(a[0]) == Upper(b[0]) && a[1..] == b[1..]
  {
    if Cap(a) == Cap(b) {
      assert Cap(a)[0] == Cap(b)[0];
      assert Cap(a)[1..] == Cap(b)[1..];
    }
  }

  /** Python's `sep.join(xs)`. */
  function Join(xs: seq<string>, sep: string): (r: string)
    ensures |xs| == 0 ==> r == ""
    ensures |xs| > 0 ==> |r| == TotalLength(xs) + (|xs| - 1) * |sep|
  {
    if |xs| == 0 then ""
    else if |xs| == 1 then xs[0]
    else xs[0] + sep + Join(xs[1..], sep)
  }

  /** `sep.join(xs)` is the first part followed by `sep + part` for each
      further part. */
  lemma {:induction false} JoinIsConcat(xs: seq<string>, sep: string)
    requires |xs| > 0
    ensures Join(xs, sep) == xs[0] + Concat(seq(|xs| - 1, i requires 0 <= i < |xs| - 1 => sep + xs[i + 1]))
  {
    var tail := seq(|xs| - 1, i requires 0 <= i < |xs| - 1 => sep + xs[i + 1]);
    if |xs| == 1 {
      assert tail == [];
    } else {
      var rest := xs[1..];
      JoinIsConcat(rest, sep);
      var tail' := seq(|rest| - 1, i requires 0 <= i < |rest| - 1 => sep + rest[i + 1]);
      assert tail == [sep + xs[1]] + tail';
      assert tail[1..] == tail';
      calc {
        Join(xs, sep);
        xs[0] + sep + Join(rest, sep);
        xs[0] + sep + (rest[0] + Concat(tail'));
        xs[0] + ((sep + xs[1]) + Concat(tail'));
        xs[0] + Concat(tail);
      }
    }
  }

  function TotalLength(xs: seq<string>): nat {
    if |xs| == 0 then 0 else |xs[0]| + TotalLength(xs[1..])
  }

  /** The strings of `xs` one after the other. */
  function Concat(xs: seq<string>): (r: string)
    ensures |r| == TotalLength(xs)
  {
    if |xs| == 0 then "" else xs[0] + Concat(xs[1..])
  }

  lemma {:induction false} ConcatAppend(xs: seq<string>, ys: seq<string>)
    ensures Concat(xs + ys) == Concat(xs) + Concat(ys)
  {
    if |xs| == 0 {
      assert xs + ys == ys;
    } else {
      assert (xs + ys)[1..] == xs[1..] + ys;
      ConcatAppend(xs[1..], ys);
    }
  }

  /** Number of occurrences of `c` in `s`. */
  function Occurrences(c: char, s: string): nat {
    if |s| == 0 then 0 else (if s[0] == c then 1 else 0) + Occurrences(c, s[1..])
  }

  lemma {:induction false} OccurrencesAppend(c: char, s: string, t: string)
    ensures Occurrences(c, s + t) == Occurrences(c, s) + Occurrences(c, t)
  {
    if |s| == 0 {
      assert s + t == t;
    } else {
      assert (s + t)[1..] == s[1..] + t;
      OccurrencesAppend(c, s[1..], t);
    }
  }
}
