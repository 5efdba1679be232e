/**
  The text the two operator<< overloads write: parts separated by a separator,
  with no separator after the last part.
 */
module Output {

  /** The parts in order, with sep between consecutive parts and none after the last. */
  function Join(parts: seq<string>, sep: string): (r: string)
    // unfolding aids for the loop proofs; JoinSnoc characterizes Join
    ensures |parts| == 1 ==> r == parts[0]
    ensures |parts| == 0 ==> r == ""
  {
    if |parts| == 0 then ""
    else if |parts| == 1 then parts[0]
    else parts[0] + sep + Join(parts[1..], sep)
  }

  /** Appending one more part adds the separator and then the part, so no separator trails. */
  lemma {:induction false} JoinSnoc(parts: seq<string>, part: string, sep: string)
    requires parts != []
    ensures Join(parts + [part], sep) == Join(parts, sep) + sep + part
    decreases |parts|
  {
    if |parts| > 1 {
      assert (parts + [part])[1..] == parts[1..] + [part];
      JoinSnoc(parts[1..], part, sep);
    }
  }

  /**
    The loop both operator<< overloads run: write each part, and after it the
    separator while the countdown flag (size - 1, decremented per part) is non-zero.
   */
  method WriteJoined(parts: seq<string>, sep: string) returns (o: string)
    ensures o == Join(parts, sep)
  {
    o := "";
    var flag: int := |parts| - 1;
    var i := 0;
    while i < |parts|
      invariant 0 <= i <= |parts|
      invariant flag == |parts| - 1 - i
      invariant o == Join(parts[..i], sep) + (if 0 < i < |parts| then sep else "")
    {
      ghost var joined := Join(parts[..i + 1], sep);
      if i > 0 {
        assert parts[..i + 1] == parts[..i] + [parts[i]];
        JoinSnoc(parts[..i], parts[i], sep);
        assert o + parts[i] == joined;
      } else {
        assert parts[..1] == [parts[0]];
      }
      o := o + parts[i];
      if flag != 0 {
        o := o + sep;
      }
      flag := flag - 1;
      i := i + 1;
    }
    assert parts[..i] == parts;
  }
}
