/** JavaScript's join, and its split with a one-character separator. */
module Strings {

  function Join(parts: seq<string>, sep: string): string {
    if parts == [] then ""
    else if |parts| == 1 then parts[0]
    else parts[0] + sep + Join(parts[1..], sep)
  }

  /** The position of the first c, or the length of the text. */
  function Find(text: string, c: char): (i: nat)
    ensures i <= |text|
    ensures forall j :: 0 <= j < i ==> text[j] != c
    ensures i < |text| ==> text[i] == c
  {
    if text == "" || text[0] == c then 0 else 1 + Find(text[1..], c)
  }

  /** String.split: always at least one part. */
  function Split(text: string, c: char): (parts: seq<string>)
    ensures parts != []
    decreases |text|
  {
    var i := Find(text, c);
    if i == |text| then [text] else [text[..i]] + Split(text[i + 1..], c)
  }

  lemma {:induction false} FindIn(a: string, b: string, c: char)
    requires c !in a && b != "" && b[0] == c
    ensures Find(a + b, c) == |a|
  {
    if a == "" {
      assert a + b == b;
    } else {
      assert a == [a[0]] + a[1..] && (a + b)[1..] == a[1..] + b;
      FindIn(a[1..], b, c);
    }
  }

  lemma FindNone(a: string, c: char)
    requires c !in a
    ensures Find(a, c) == |a|
  {
  }

  lemma SplitFirst(a: string, rest: string, c: char)
    requires c !in a
    ensures Split(a + [c] + rest, c) == [a] + Split(rest, c)
  {
    var text := a + [c] + rest;
    assert text == a + ([c] + rest);
    FindIn(a, [c] + rest, c);
    assert text[..|a|] == a && text[|a| + 1..] == rest;
  }

  lemma {:induction false} SplitJoin(parts: seq<string>, c: char)
    requires parts != [] && forall i :: 0 <= i < |parts| ==> c !in parts[i]
    ensures Split(Join(parts, [c]), c) == parts
  {
    if |parts| == 1 {
      FindNone(parts[0], c);
    } else {
      SplitFirst(parts[0], Join(parts[1..], [c]), c);
      SplitJoin(parts[1..], c);
    }
  }

  lemma {:induction false} JoinSplit(text: string, c: char)
    ensures Join(Split(text, c), [c]) == text
    ensures forall i :: 0 <= i < |Split(text, c)| ==> c !in Split(text, c)[i]
    decreases |text|
  {
    var i := Find(text, c);
    if i < |text| {
      JoinSplit(text[i + 1..], c);
      assert text == text[..i] + [c] + text[i + 1..];
    }
  }
}
