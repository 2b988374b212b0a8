/** Splitting text at a separator and joining it again. */
module Text {

  function Join(parts: seq<string>, sep: char): string {
    if parts == [] then "" else if |parts| == 1 then parts[0] else parts[0] + [sep] + Join(parts[1..], sep)
  }

  function Split(s: string, sep: char): (parts: seq<string>)
    ensures |parts| >= 1
  {
    if s == "" then [""]
    else
      var rest := Split(s[1..], sep);
      if s[0] == sep then [""] + rest else [[s[0]] + rest[0]] + rest[1..]
  }

  ghost predicate NoneHolds(parts: seq<string>, sep: char) {
    forall i :: 0 <= i < |parts| ==> sep !in parts[i]
  }

  lemma {:induction false} JoinSplit(s: string, sep: char)
    ensures Join(Split(s, sep), sep) == s
    ensures NoneHolds(Split(s, sep), sep)
  {
    if s != "" {
      var rest, parts := Split(s[1..], sep), Split(s, sep);
      JoinSplit(s[1..], sep);
      if s[0] == sep {
        assert parts[1..] == rest;
      } else {
        assert parts[1..] == rest[1..];
        if |rest| > 1 {
          assert Join(parts, sep) == [s[0]] + rest[0] + [sep] + Join(rest[1..], sep);
        }
      }
      assert Join(parts, sep) == [s[0]] + s[1..];
    }
  }

  lemma {:induction false} SplitJoin(parts: seq<string>, sep: char)
    requires |parts| >= 1 && NoneHolds(parts, sep)
    ensures Split(Join(parts, sep), sep) == parts
    decreases |parts|, |parts[0]|
  {
    var s, head, tail := Join(parts, sep), parts[0], parts[1..];
    if head == "" {
      if tail == [] {
        assert s == "";
      } else {
        SplitJoin(tail, sep);
        assert s[0] == sep && s[1..] == Join(tail, sep);
      }
    } else {
      var shorter := [head[1..]] + tail;
      assert shorter[1..] == tail;
      SplitJoin(shorter, sep);
      assert s[0] == head[0];
      assert s[1..] == Join(shorter, sep);
      assert [head[0]] + head[1..] == head;
    }
  }

  /** A text splits into `parts` exactly when it is `parts` joined and none of them holds the separator. */
  lemma SplitIff(s: string, parts: seq<string>, sep: char)
    requires |parts| >= 1
    ensures Split(s, sep) == parts <==> s == Join(parts, sep) && NoneHolds(parts, sep)
  {
    JoinSplit(s, sep);
    if s == Join(parts, sep) && NoneHolds(parts, sep) {
      SplitJoin(parts, sep);
    }
  }
}
