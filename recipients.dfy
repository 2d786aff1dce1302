/** The relay recipient list: the configured `to` string cut with Python's
    `str.split` on the literal two-character separator `" ,"` (a space, then
    a comma). Empty pieces are kept, as `split` with an explicit separator
    keeps them. */
module Recipients {

  const Separator: string := " ,"

  /** The separator starts at index `k` of `s`. */
  predicate SepAt(s: string, k: int) {
    0 <= k && k + 1 < |s| && s[k] == ' ' && s[k + 1] == ','
  }

  predicate ContainsSep(s: string) {
    exists k :: 0 <= k < |s| && SepAt(s, k)
  }

  /** `s.split(" ,")`: the text before the leftmost separator, then the
      split of what follows it; a string without separator is one piece. */
  function Split(s: string): (r: seq<string>)
    ensures |r| >= 1
    ensures r[0] <= s
    decreases |s|
  {
    if |s| < 2 then [s]
    else if s[..2] == Separator then [""] + Split(s[2..])
    else
      var rest := Split(s[1..]);
      [[s[0]] + rest[0]] + rest[1..]
  }

  /** `" ,".join(parts)`, the inverse of `Split`. */
  function Join(parts: seq<string>): string
    requires |parts| >= 1
    decreases |parts|
  {
    if |parts| == 1 then parts[0] else parts[0] + Separator + Join(parts[1..])
  }

  /** The recipient list handed to `sendmail`. */
  function RelayRecipients(to: string): (r: seq<string>)
    ensures |r| >= 1
  {
    Split(to)
  }

  lemma SepShift(c: char, s: string, k: int)
    requires 0 <= k
    ensures SepAt(s, k) <==> SepAt([c] + s, k + 1)
  {
  }

  lemma {:induction false} JoinCons(c: char, parts: seq<string>)
    requires |parts| >= 1
    ensures Join([[c] + parts[0]] + parts[1..]) == [c] + Join(parts)
  {
    var q := [[c] + parts[0]] + parts[1..];
    if |parts| > 1 {
      assert q[1..] == parts[1..];
    }
  }

  /** Joining the pieces gives back the configured string. */
  lemma {:induction false} JoinSplit(s: string)
    ensures Join(Split(s)) == s
    decreases |s|
  {
    if |s| < 2 {
    } else if s[..2] == Separator {
      JoinSplit(s[2..]);
      var r := Split(s);
      assert r[1..] == Split(s[2..]);
      assert s == s[..2] + s[2..];
    } else {
      JoinSplit(s[1..]);
      JoinCons(s[0], Split(s[1..]));
      assert s == [s[0]] + s[1..];
    }
  }

  lemma {:induction false} NoSepTail(c: char, s: string)
    requires !ContainsSep([c] + s)
    ensures !ContainsSep(s)
  {
    forall k | 0 <= k ensures !SepAt(s, k) {
      SepShift(c, s, k);
    }
  }

  /** No piece contains the separator. */
  lemma {:induction false} PiecesFree(s: string)
    ensures forall i :: 0 <= i < |Split(s)| ==> !ContainsSep(Split(s)[i])
    decreases |s|
  {
    var r := Split(s);
    if |s| < 2 {
      forall k ensures !SepAt(s, k) { }
    } else if s[..2] == Separator {
      PiecesFree(s[2..]);
      assert r[1..] == Split(s[2..]);
      forall k ensures !SepAt(r[0], k) { }
    } else {
      var rest := Split(s[1..]);
      PiecesFree(s[1..]);
      var head := [s[0]] + rest[0];
      forall k ensures !SepAt(head, k) {
        if k > 0 {
          SepShift(s[0], rest[0], k - 1);
        }
      }
    }
  }

  /** A string without separator is a single recipient, the whole string. */
  lemma {:induction false} SplitNoSep(s: string)
    requires !ContainsSep(s)
    ensures Split(s) == [s]
    decreases |s|
  {
    if |s| >= 2 {
      assert !SepAt(s, 0);
      assert [s[0]] + s[1..] == s;
      NoSepTail(s[0], s[1..]);
      SplitNoSep(s[1..]);
    }
  }

  /** A string holding the separator yields at least two recipients. */
  lemma {:induction false} SplitWithSep(s: string)
    requires ContainsSep(s)
    ensures |Split(s)| >= 2
    decreases |s|
  {
    var k :| 0 <= k < |s| && SepAt(s, k);
    if s[..2] != Separator {
      assert k != 0;
      SepShift(s[0], s[1..], k - 1);
      assert [s[0]] + s[1..] == s;
      SplitWithSep(s[1..]);
    }
  }

  /** One recipient exactly when the configured string has no separator. */
  lemma SingleRecipientIff(to: string)
    ensures |RelayRecipients(to)| == 1 <==> !ContainsSep(to)
    ensures !ContainsSep(to) ==> RelayRecipients(to) == [to]
  {
    if ContainsSep(to) {
      SplitWithSep(to);
    } else {
      SplitNoSep(to);
    }
  }

  /** Splitting the separator-free piece `p` off the front of a joined string. */
  lemma {:induction false} SplitPrefix(p: string, t: string)
    requires !ContainsSep(p)
    ensures Split(p + Separator + t) == [p] + Split(t)
    decreases |p|
  {
    var s := p + Separator + t;
    if p == [] {
      assert s[..2] == Separator && s[2..] == t;
    } else {
      var q := p[1..];
      assert p == [p[0]] + q;
      NoSepTail(p[0], q);
      if |q| > 0 {
        assert s[..2] == p[..2];
        assert !SepAt(p, 0);
      }
      assert s[1..] == q + Separator + t;
      SplitPrefix(q, t);
    }
  }

  /** Splitting a join of separator-free pieces gives the pieces back. */
  lemma {:induction false} SplitJoin(parts: seq<string>)
    requires |parts| >= 1
    requires forall i :: 0 <= i < |parts| ==> !ContainsSep(parts[i])
    ensures Split(Join(parts)) == parts
    decreases |parts|
  {
    if |parts| == 1 {
      SplitNoSep(parts[0]);
    } else {
      SplitJoin(parts[1..]);
      SplitPrefix(parts[0], Join(parts[1..]));
    }
  }

  /** A list written with the separator yields two recipients. */
  lemma TwoRecipients()
    ensures RelayRecipients("a@x ,b@y") == ["a@x", "b@y"]
  {
    var parts := ["a@x", "b@y"];
    assert Join(parts) == "a@x ,b@y";
    forall i | 0 <= i < |parts| ensures !ContainsSep(parts[i]) {
      assert forall k :: 0 <= k ==> !SepAt(parts[i], k);
    }
    SplitJoin(parts);
  }

  /** A comma without the leading space does not separate. */
  lemma CommaAloneDoesNotSeparate()
    ensures RelayRecipients("a@x,b@y") == ["a@x,b@y"]
  {
    SplitNoSep("a@x,b@y");
  }

  /** The separator is a space then a comma: a list written as comma then
      space is not cut either. */
  lemma CommaSpaceDoesNotSeparate()
    ensures RelayRecipients("a@x, b@y") == ["a@x, b@y"]
  {
    SplitNoSep("a@x, b@y");
  }
}
