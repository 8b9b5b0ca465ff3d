/**
 Joining displayed fields with `:` (`parts.join(':')`) and the inverse split
 used to read a keyframe value back into its fields.
 */
module Parts {

  const Sep: char := ':'

  /** Total length of the parts, separators not counted. */
  ghost function TotalLength(ps: seq<string>): nat {
    if |ps| == 0 then 0 else |ps[0]| + TotalLength(ps[1..])
  }

  /** `parts.join(':')`; the empty list joins to the empty string. The result holds
      every part plus one separator between each neighbouring pair, and begins with
      the first part. */
  function Join(ps: seq<string>): (r: string)
    ensures |ps| == 0 ==> r == ""
    ensures |ps| >= 1 ==> |r| == TotalLength(ps) + |ps| - 1
    ensures |ps| >= 1 ==> r[..|ps[0]|] == ps[0]
    ensures |ps| >= 2 ==> r[|ps[0]|] == Sep
  {
    if |ps| == 0 then ""
    else if |ps| == 1 then ps[0]
    else ps[0] + [Sep] + Join(ps[1..])
  }

  /** Splits at every separator; always at least one (possibly empty) part. */
  ghost function Split(s: string): (ps: seq<string>)
    ensures |ps| >= 1
    ensures forall k :: 0 <= k < |ps| ==> Sep !in ps[k]
  {
    if |s| == 0 then [""]
    else
      var rest := Split(s[1..]);
      if s[0] == Sep then [""] + rest
      else [[s[0]] + rest[0]] + rest[1..]
  }

  lemma {:induction false} SplitNoSep(w: string)
    requires Sep !in w
    ensures Split(w) == [w]
  {
    if |w| > 0 {
      SplitNoSep(w[1..]);
      assert [w[0]] + w[1..] == w;
    }
  }

  lemma {:induction false} SplitCons(w: string, t: string)
    requires Sep !in w
    ensures Split(w + [Sep] + t) == [w] + Split(t)
  {
    var s := w + [Sep] + t;
    if |w| == 0 {
      assert s[1..] == t;
    } else {
      assert s[1..] == w[1..] + [Sep] + t;
      SplitCons(w[1..], t);
      assert [w[0]] + w[1..] == w;
    }
  }

  /** Splitting undoes joining, for a non-empty list of parts free of separators. */
  lemma {:induction false} SplitJoin(ps: seq<string>)
    requires |ps| >= 1
    requires forall k :: 0 <= k < |ps| ==> Sep !in ps[k]
    ensures Split(Join(ps)) == ps
  {
    if |ps| == 1 {
      SplitNoSep(ps[0]);
    } else {
      SplitJoin(ps[1..]);
      SplitCons(ps[0], Join(ps[1..]));
      assert [ps[0]] + ps[1..] == ps;
    }
  }

  /** Joining undoes splitting, for every string. */
  lemma {:induction false} JoinSplit(s: string)
    ensures Join(Split(s)) == s
  {
    if |s| > 0 {
      var rest := Split(s[1..]);
      JoinSplit(s[1..]);
      if s[0] == Sep {
        assert ([""] + rest)[1..] == rest;
      } else {
        var ps := [[s[0]] + rest[0]] + rest[1..];
        if |rest| > 1 {
          assert ps[1..] == rest[1..];
        }
        assert [s[0]] + s[1..] == s;
      }
    }
  }
}
