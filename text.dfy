/** String helpers the request handlers rely on: Python's str.startswith,
    str.lower (on ASCII letters), the " ~ " join the recipe form is flattened
    with, and str.split with an explicit separator, which is how the joined
    string is read back as a list. */
module Text {

  datatype Option<T> = None | Some(value: T)

  /** Python's `s.startswith(prefix)`. */
  predicate StartsWith(s: string, prefix: string) {
    |prefix| <= |s| && s[..|prefix|] == prefix
  }

  /** Python's `str.lower()` on one character, for the ASCII letters. */
  function LowerChar(c: char): char {
    if 'A' <= c <= 'Z' then (c as int - 'A' as int + 'a' as int) as char else c
  }

  /** Not an ASCII capital: digits, '@' and the like qualify too, so this is
      "unchanged by lower()", not Python's `islower()`. */
  predicate IsLowerChar(c: char) {
    !('A' <= c <= 'Z')
  }

  predicate IsLower(s: string) {
    forall i :: 0 <= i < |s| ==> IsLowerChar(s[i])
  }

  /** Python's `str.lower()`: every upper-case letter replaced by its
      lower-case form, every other character kept. */
  function Lower(s: string): (r: string)
    ensures |r| == |s|
    ensures IsLower(r)
    ensures forall i :: 0 <= i < |s| && IsLowerChar(s[i]) ==> r[i] == s[i]
    ensures forall i :: 0 <= i < |s| && !IsLowerChar(s[i]) ==> r[i] as int == s[i] as int + 32
  {
    seq(|s|, i requires 0 <= i < |s| => LowerChar(s[i]))
  }

  /** Lowering twice is lowering once, and a lower-case string is its own
      lower-case form: the keys the handlers store are fixed points. */
  lemma LowerOfLower(s: string)
    ensures IsLower(s) <==> Lower(s) == s
    ensures Lower(Lower(s)) == Lower(s)
  {
    if Lower(s) == s {
      forall i | 0 <= i < |s| ensures IsLowerChar(s[i]) {
        assert s[i] == Lower(s)[i];
      }
    }
  }

  /** The separator the recipe form's dynamic fields are joined with. */
  const Sep: string := " ~ "

  /** `sep.join(xs)`: the elements in order, with `sep` between neighbours
      and nowhere else. */
  function Join(sep: string, xs: seq<string>): string
  {
    if |xs| == 0 then ""
    else if |xs| == 1 then xs[0]
    else xs[0] + sep + Join(sep, xs[1..])
  }

  /** Appending one element to the list appends the separator and that element
      to the joined string, except for the first element, which gets no
      separator. This is the step the flattening loop takes. */
  lemma {:induction false} JoinSnoc(sep: string, xs: seq<string>, x: string)
    ensures Join(sep, xs + [x]) == if xs == [] then x else Join(sep, xs) + sep + x
  {
    if |xs| == 0 {
      assert xs + [x] == [x];
    } else if |xs| == 1 {
      assert (xs + [x])[1..] == [x];
    } else {
      assert (xs + [x])[1..] == xs[1..] + [x];
      JoinSnoc(sep, xs[1..], x);
    }
  }

  function TotalLength(xs: seq<string>): nat
  {
    if |xs| == 0 then 0 else |xs[0]| + TotalLength(xs[1..])
  }

  /** A join of k >= 1 elements holds exactly the elements' characters plus
      k - 1 copies of the separator. */
  lemma {:induction false} JoinLength(sep: string, xs: seq<string>)
    ensures |Join(sep, xs)| == if xs == [] then 0 else TotalLength(xs) + (|xs| - 1) * |sep|
  {
    if |xs| > 1 {
      JoinLength(sep, xs[1..]);
    }
  }

  /** `sep` occurs in `s` starting at index `j`. */
  predicate OccursAt(s: string, sep: string, j: nat) {
    j + |sep| <= |s| && s[j..j + |sep|] == sep
  }

  predicate Contains(s: string, sep: string) {
    exists j: nat :: j <= |s| && OccursAt(s, sep, j)
  }

  /** An occurrence past the first character is an occurrence in the tail. */
  lemma OccursAtTail(s: string, sep: string, j: nat)
    requires |s| > 0
    ensures OccursAt(s, sep, j + 1) <==> OccursAt(s[1..], sep, j)
  {
    if j + 1 + |sep| <= |s| {
      assert s[j + 1..j + 1 + |sep|] == s[1..][j..j + |sep|];
    }
  }

  /** Python's `s.find(sep)`: the leftmost occurrence of `sep`, if any. */
  function IndexOf(s: string, sep: string): (r: Option<nat>)
    requires |sep| > 0
    ensures r.Some? ==> OccursAt(s, sep, r.value)
    ensures r.Some? ==> forall j: nat :: j < r.value ==> !OccursAt(s, sep, j)
    ensures r.None? ==> forall j: nat :: !OccursAt(s, sep, j)
    decreases |s|
  {
    if |s| < |sep| then None
    else if s[..|sep|] == sep then Some(0)
    else
      var tail := IndexOf(s[1..], sep);
      assert !OccursAt(s, sep, 0) by { assert s[0..|sep|] == s[..|sep|]; }
      assert forall j: nat :: 0 < j ==> (OccursAt(s, sep, j) <==> OccursAt(s[1..], sep, j - 1)) by {
        forall j: nat | 0 < j ensures OccursAt(s, sep, j) <==> OccursAt(s[1..], sep, j - 1) {
          OccursAtTail(s, sep, j - 1);
        }
      }
      match tail
      case None => None
      case Some(i) => Some(i + 1)
  }

  /** Any index meeting the two conditions of a leftmost occurrence is the one
      IndexOf finds. */
  lemma IndexOfIs(s: string, sep: string, i: nat)
    requires |sep| > 0
    requires OccursAt(s, sep, i)
    requires forall j: nat :: j < i ==> !OccursAt(s, sep, j)
    ensures IndexOf(s, sep) == Some(i)
  {
  }

  /** Python's `s.split(sep)` for a non-empty `sep`: the pieces between the
      leftmost non-overlapping occurrences. Joining the pieces gives `s` back,
      no piece contains the separator, and every cut falls at the leftmost
      occurrence in what remains of the string. */
  function Split(s: string, sep: string): (parts: seq<string>)
    requires |sep| > 0
    ensures |parts| >= 1
    ensures Join(sep, parts) == s
    ensures forall k :: 0 <= k < |parts| ==> !Contains(parts[k], sep)
    ensures IndexOf(s, sep) == if |parts| == 1 then None else Some(|parts[0]|)
    ensures forall k :: 0 <= k < |parts| - 1 ==> IndexOf(Join(sep, parts[k..]), sep) == Some(|parts[k]|)
    decreases |s|
  {
    match IndexOf(s, sep)
    case None => [s]
    case Some(i) =>
      var rest := Split(s[i + |sep|..], sep);
      CutAtFirstOccurrence(s, sep, i);
      var parts := [s[..i]] + rest;
      assert parts[1..] == rest && parts[0] == s[..i] && |parts[0]| == i && |parts| > 1;
      assert forall k :: 1 <= k < |parts| ==> parts[k..] == rest[k - 1..];
      parts
  }

  /** Cutting at the leftmost occurrence: the string is the part before it,
      the separator and the part after it, and the part before it holds no
      occurrence. */
  lemma CutAtFirstOccurrence(s: string, sep: string, i: nat)
    requires |sep| > 0
    requires OccursAt(s, sep, i)
    requires forall j: nat :: j < i ==> !OccursAt(s, sep, j)
    ensures s == s[..i] + sep + s[i + |sep|..]
    ensures !Contains(s[..i], sep)
  {
    var head := s[..i];
    assert s == head + s[i..i + |sep|] + s[i + |sep|..];
    forall j: nat | OccursAt(head, sep, j) ensures OccursAt(s, sep, j) {
      assert s[j..j + |sep|] == head[j..j + |sep|];
    }
  }

  /** Splitting a " ~ "-joined list gives the list back, provided it is not
      empty and no element contains the character '~'. */
  lemma {:induction false} SplitJoin(xs: seq<string>)
    requires |xs| > 0
    requires forall k :: 0 <= k < |xs| ==> '~' !in xs[k]
    ensures Split(Join(Sep, xs), Sep) == xs
  {
    var x := xs[0];
    if |xs| == 1 {
      NoOccurrenceWithoutTilde(x);
    } else {
      var s := Join(Sep, xs);
      assert s == x + Sep + Join(Sep, xs[1..]);
      assert OccursAt(s, Sep, |x|) by {
        assert s[|x|..|x| + 3] == Sep;
      }
      forall j: nat | j < |x| ensures !OccursAt(s, Sep, j) {
        assert s[j + 1] != '~' by {
          if j + 1 < |x| {
            assert s[j + 1] == x[j + 1];
          }
        }
        assert s[j..j + 3][1] == s[j + 1];
      }
      IndexOfIs(s, Sep, |x|);
      assert s[..|x|] == x;
      assert s[|x| + |Sep|..] == Join(Sep, xs[1..]);
      SplitJoin(xs[1..]);
    }
  }

  /** A string with no '~' has no " ~ " in it, so split leaves it whole. */
  lemma NoOccurrenceWithoutTilde(x: string)
    requires '~' !in x
    ensures IndexOf(x, Sep) == None
    ensures Split(x, Sep) == [x]
  {
    forall j: nat | j + 3 <= |x| ensures !OccursAt(x, Sep, j) {
      assert x[j..j + 3][1] == x[j + 1];
    }
  }

  /** The round trip needs at least one value: an empty group joins to "",
      and "" splits into one empty piece, not into no pieces. */
  lemma SplitOfEmpty()
    ensures Join(Sep, []) == ""
    ensures Split(Join(Sep, []), Sep) == [""]
  {
  }

  /** Whenever the first value ends in " ~", the round trip fails: that
      ending and the blank opening the separator after it form a " ~ " that
      comes before the real separator, so split cuts the first piece short. */
  lemma SplitJoinFailsAfterTrailingTilde(xs: seq<string>)
    requires |xs| >= 2
    requires |xs[0]| >= 2 && xs[0][|xs[0]| - 2..] == " ~"
    ensures Split(Join(Sep, xs), Sep) != xs
  {
    var x := xs[0];
    var s := Join(Sep, xs);
    assert s == x + Sep + Join(Sep, xs[1..]);
    var e := |x| - 2;
    assert OccursAt(s, Sep, e) by {
      assert s[e] == x[e] == ' ' && s[e + 1] == x[e + 1] == '~' && s[e + 2] == ' ';
      assert s[e..e + 3] == Sep;
    }
    var parts := Split(s, Sep);
    assert IndexOf(s, Sep).Some? && IndexOf(s, Sep).value <= e;
    assert |parts| > 1 && |parts[0]| < |x|;
  }

  /** Leaving out '~' matters, not only " ~ ": an element ending in " ~"
      runs into the separator after it, and the split cuts in the wrong
      place. */
  lemma SplitJoinFailsAtSeparatorEdge()
    ensures !Contains("a ~", Sep) && !Contains("b", Sep)
    ensures Join(Sep, ["a ~", "b"]) == "a ~ ~ b"
    ensures Split(Join(Sep, ["a ~", "b"]), Sep) == ["a", "~ b"]
  {
    var s := "a ~ ~ b";
    assert OccursAt(s, Sep, 1) by { assert s[1..4] == Sep; }
    assert !OccursAt(s, Sep, 0) by { assert s[1] != '~'; }
    IndexOfIs(s, Sep, 1);
    assert s[..1] == "a";
    var t := s[4..];
    assert t == "~ b";
    assert IndexOf(t, Sep) == None by {
      forall j: nat ensures !OccursAt(t, Sep, j) {
        if j + 3 <= |t| { assert j == 0; assert t[0] != ' '; }
      }
    }
    assert !Contains("a ~", Sep) by {
      forall j: nat ensures !OccursAt("a ~", Sep, j) {
        if j + 3 <= 3 { assert "a ~"[0] != ' '; }
      }
    }
  }
}
