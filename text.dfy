/** The few Python `str` operations the thermostat-summary parser relies on:
    `s.split(sep, 1)`, `s.split(sep)`, `s.strip() != ''` and `s.lower()`. */
module Text {
  import opened Wrappers

  /** Index of the first occurrence of `c` in `s`, or |s| when there is none. */
  function FirstIndex(s: string, c: char): (i: nat)
    ensures i <= |s|
    ensures i < |s| ==> s[i] == c
  {
    if s == [] then 0
    else if s[0] == c then 0
    else 1 + FirstIndex(s[1..], c)
  }

  lemma {:induction false} FirstIndexIsFirst(s: string, c: char)
    ensures forall k :: 0 <= k < FirstIndex(s, c) ==> s[k] != c
  {
    if s != [] && s[0] != c {
      FirstIndexIsFirst(s[1..], c);
    }
  }

  /** `s.split(sep, 1)` unpacked into two names: None (Python's ValueError)
      when `sep` does not occur; otherwise the parts around the FIRST `sep`. */
  function SplitFirst(s: string, sep: char): Option<(string, string)>
  {
    var i := FirstIndex(s, sep);
    if i == |s| then None else Some((s[..i], s[i + 1..]))
  }

  /** SplitFirst fails exactly when `sep` is missing, and otherwise cuts `s`
      at its first `sep`, losing nothing. */
  lemma SplitFirstSpec(s: string, sep: char)
    ensures SplitFirst(s, sep).Some? <==> sep in s
    ensures SplitFirst(s, sep).Some? ==>
      var (head, tail) := SplitFirst(s, sep).value;
      s == head + [sep] + tail && sep !in head
  {
    var i := FirstIndex(s, sep);
    FirstIndexIsFirst(s, sep);
    if i < |s| {
      assert s == s[..i] + [sep] + s[i + 1..];
    }
  }

  /** Any way of writing `s` as `head + [sep] + tail` with no `sep` in `head`
      is the one SplitFirst finds. */
  lemma SplitFirstUnique(s: string, sep: char, head: string, tail: string)
    requires s == head + [sep] + tail && sep !in head
    ensures SplitFirst(s, sep) == Some((head, tail))
  {
    var i := FirstIndex(s, sep);
    FirstIndexIsFirst(s, sep);
    assert s[|head|] == sep;
    assert i == |head|;
    assert s[..i] == head;
    assert s[i + 1..] == tail;
  }

  /** The inverse of `split`: `sep.join(pieces)`. */
  function Join(pieces: seq<string>, sep: char): (s: string)
  {
    if pieces == [] then ""
    else if |pieces| == 1 then pieces[0]
    else pieces[0] + [sep] + Join(pieces[1..], sep)
  }

  /** `s.split(sep)` with an explicit separator. */
  function Split(s: string, sep: char): seq<string>
    decreases |s|
  {
    var i := FirstIndex(s, sep);
    if i == |s| then [s] else [s[..i]] + Split(s[i + 1..], sep)
  }

  /** Split gives every piece between separators, empty ones included, in
      order and at least one: joining them again gives `s` back. */
  lemma {:induction false} SplitSpec(s: string, sep: char)
    ensures |Split(s, sep)| >= 1
    ensures forall k :: 0 <= k < |Split(s, sep)| ==> sep !in Split(s, sep)[k]
    ensures Join(Split(s, sep), sep) == s
    decreases |s|
  {
    var i := FirstIndex(s, sep);
    FirstIndexIsFirst(s, sep);
    if i < |s| {
      var tail := s[i + 1..];
      SplitSpec(tail, sep);
      var pieces := Split(s, sep);
      assert pieces == [s[..i]] + Split(tail, sep);
      assert pieces[1..] == Split(tail, sep);
      assert s == s[..i] + [sep] + tail;
      forall k | 0 <= k < |pieces| ensures sep !in pieces[k] {
        if k > 0 { assert pieces[k] == Split(tail, sep)[k - 1]; }
      }
    }
  }

  /** Splitting a join gives the pieces back, so Split loses nothing and
      invents nothing. */
  lemma {:induction false} SplitJoin(pieces: seq<string>, sep: char)
    requires |pieces| >= 1
    requires forall k :: 0 <= k < |pieces| ==> sep !in pieces[k]
    ensures Split(Join(pieces, sep), sep) == pieces
    decreases |pieces|
  {
    if |pieces| == 1 {
      assert sep !in pieces[0];
    } else {
      var rest := pieces[1..];
      assert forall k :: 0 <= k < |rest| ==> sep !in rest[k] by {
        forall k | 0 <= k < |rest| ensures sep !in rest[k] { assert rest[k] == pieces[k + 1]; }
      }
      assert sep !in pieces[0];
      var s := Join(pieces, sep);
      SplitFirstUnique(s, sep, pieces[0], Join(rest, sep));
      SplitJoin(rest, sep);
      assert pieces == [pieces[0]] + rest;
      assert FirstIndex(s, sep) == |pieces[0]|;
    }
  }

  /** Python's `str.isspace()` for one character: the code points that
      `str.strip()` with no argument removes. */
  predicate IsSpace(c: char)
  {
    || (0x09 <= c as int <= 0x0D)
    || (0x1C <= c as int <= 0x20)
    || c as int == 0x85 || c as int == 0xA0 || c as int == 0x1680
    || (0x2000 <= c as int <= 0x200A)
    || c as int == 0x2028 || c as int == 0x2029 || c as int == 0x202F
    || c as int == 0x205F || c as int == 0x3000
  }

  /** `s.strip() == ''`: every character of `s` is whitespace. */
  predicate IsBlank(s: string)
  {
    s == [] || (IsSpace(s[0]) && IsBlank(s[1..]))
  }

  /** A string is blank exactly when every character is whitespace. */
  lemma {:induction false} BlankMeansAllSpace(s: string)
    ensures IsBlank(s) <==> forall k :: 0 <= k < |s| ==> IsSpace(s[k])
  {
    if s != [] {
      BlankMeansAllSpace(s[1..]);
      assert forall k :: 1 <= k < |s| ==> s[k] == s[1..][k - 1];
    }
  }

  /** `str.lower()` on one character, restricted to ASCII letters: a
      capital becomes the letter 32 code points above it, every other
      character is left as it is. */
  function LowerChar(c: char): (d: char)
    ensures !('A' <= d <= 'Z')
    ensures 'A' <= c <= 'Z' ==> d as int == c as int - 'A' as int + 'a' as int
    ensures !('A' <= c <= 'Z') ==> d == c
  {
    if 'A' <= c <= 'Z' then (c as int - 'A' as int + 'a' as int) as char else c
  }

  /** `s.lower()` (ASCII letters only). */
  function Lower(s: string): (r: string)
    ensures |r| == |s|
  {
    if s == [] then "" else [LowerChar(s[0])] + Lower(s[1..])
  }

  lemma {:induction false} LowerAt(s: string)
    ensures forall k :: 0 <= k < |s| ==> Lower(s)[k] == LowerChar(s[k])
  {
    if s != [] {
      LowerAt(s[1..]);
    }
  }

  const Capitals := "ABCDEFGHIJKLMNOPQRSTUVWXYZ"
  const Smalls := "abcdefghijklmnopqrstuvwxyz"

  /** Each capital lowers to the letter at the same place in the alphabet. */
  lemma LowerCharAlphabet()
    ensures |Capitals| == |Smalls| == 26
    ensures forall k :: 0 <= k < 26 ==> LowerChar(Capitals[k]) == Smalls[k]
  {
  }

  /** Lower-casing is idempotent: a name that is already lower-case keys the
      same thermostat. */
  lemma LowerIdempotent(s: string)
    ensures Lower(Lower(s)) == Lower(s)
  {
    var once := Lower(s);
    LowerAt(s);
    LowerAt(once);
    assert forall k :: 0 <= k < |s| ==> LowerChar(once[k]) == once[k];
  }
}
