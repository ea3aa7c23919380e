/** String helpers the path and MIME logic is built from: splitting a path
    string at every `/` (the inverse of joining with `/`), and Rust's
    `to_ascii_lowercase`. */
module Text {

  /** The pieces of `s` between `/` separators, empty pieces included, so that
      joining them back with `/` restores `s`. */
  function Split(s: string): (parts: seq<string>)
    ensures |parts| >= 1
    ensures forall i :: 0 <= i < |parts| ==> '/' !in parts[i]
    decreases |s|
  {
    if |s| == 0 then [""]
    else
      var rest := Split(s[1..]);
      if s[0] == '/' then [""] + rest
      else [[s[0]] + rest[0]] + rest[1..]
  }

  /** Joins the parts with a `/` between neighbours. */
  function Join(parts: seq<string>): string
    requires |parts| >= 1
    decreases |parts|
  {
    if |parts| == 1 then parts[0] else parts[0] + "/" + Join(parts[1..])
  }

  predicate NoSlash(parts: seq<string>) {
    forall i :: 0 <= i < |parts| ==> '/' !in parts[i]
  }

  /** Splitting then joining gives back the original string. */
  lemma {:induction false} JoinSplit(s: string)
    ensures Join(Split(s)) == s
    decreases |s|
  {
    if |s| == 0 {
    } else {
      JoinSplit(s[1..]);
      var rest := Split(s[1..]);
      if s[0] == '/' {
        assert Join([""] + rest) == "" + "/" + Join(rest);
        assert s == [s[0]] + s[1..];
      } else {
        var parts := [[s[0]] + rest[0]] + rest[1..];
        if |rest| == 1 {
          assert Join(parts) == [s[0]] + rest[0];
        } else {
          assert Join(parts) == [s[0]] + rest[0] + "/" + Join(rest[1..]);
          assert Join(rest) == rest[0] + "/" + Join(rest[1..]);
        }
        assert s == [s[0]] + s[1..];
      }
    }
  }

  /** Splitting a `/`-free string gives the string alone. */
  lemma {:induction false} SplitPlain(s: string)
    requires '/' !in s
    ensures Split(s) == [s]
    decreases |s|
  {
    if |s| > 0 {
      assert '/' !in s[1..];
      SplitPlain(s[1..]);
      assert [s[0]] + s[1..] == s;
    }
  }

  /** Splitting `a + "/" + b` splits the two sides independently. */
  lemma {:induction false} SplitAround(a: string, b: string)
    ensures Split(a + "/" + b) == Split(a) + Split(b)
    decreases |a|
  {
    var s := a + "/" + b;
    if |a| == 0 {
      assert s == "/" + b;
      assert s[1..] == b;
    } else {
      assert s[1..] == a[1..] + "/" + b;
      SplitAround(a[1..], b);
      assert s[0] == a[0];
    }
  }

  /** Joining `/`-free parts then splitting gives back the parts. */
  lemma {:induction false} SplitJoin(parts: seq<string>)
    requires |parts| >= 1
    requires NoSlash(parts)
    ensures Split(Join(parts)) == parts
    decreases |parts|
  {
    SplitPlain(parts[0]);
    if |parts| > 1 {
      SplitJoin(parts[1..]);
      SplitAround(parts[0], Join(parts[1..]));
      assert parts == [parts[0]] + parts[1..];
    }
  }

  /** Rust's `u8::to_ascii_lowercase` on one character. */
  function LowerChar(c: char): char {
    if 'A' <= c <= 'Z' then (c as int + 32) as char else c
  }

  /** Rust's `OsStr::to_ascii_lowercase`: `A`..`Z` become `a`..`z`, every other
      character is kept. */
  function AsciiLower(s: string): (r: string)
    ensures |r| == |s|
    ensures forall i :: 0 <= i < |s| ==> r[i] == LowerChar(s[i])
    ensures IsAsciiLower(r)
  {
    seq(|s|, i requires 0 <= i < |s| => LowerChar(s[i]))
  }

  predicate IsAsciiLower(s: string) {
    forall i :: 0 <= i < |s| ==> !('A' <= s[i] <= 'Z')
  }

  /** Lowering removes every upper-case ASCII letter, touches nothing else,
      and lowering twice is lowering once. */
  lemma AsciiLowerSound(s: string)
    ensures IsAsciiLower(AsciiLower(s))
    ensures AsciiLower(AsciiLower(s)) == AsciiLower(s)
    ensures IsAsciiLower(s) ==> AsciiLower(s) == s
  {
  }
}
