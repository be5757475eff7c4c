// Character classes and the few str operations the codec relies on:
// str.isspace, str.split(' '), ' '.join and str.replace('**', '').

module Text {

  /** ZW_ZERO, U+200B ZERO WIDTH SPACE, marks a 0 bit. */
  const ZwZero: char := '\U{200B}'
  /** ZW_ONE, U+200C ZERO WIDTH NON-JOINER, marks a 1 bit. */
  const ZwOne: char := '\U{200C}'
  const Star: char := '*'
  const Bold: string := "**"

  /** Python 3's str.isspace on one character: the code points whose bidirectional
      class is WS, B or S, or whose general category is Zs. */
  predicate IsSpace(c: char)
  {
    var n := c as int;
    (0x09 <= n <= 0x0D) || (0x1C <= n <= 0x20) || n == 0x85 || n == 0xA0 ||
    n == 0x1680 || (0x2000 <= n <= 0x200A) || n == 0x2028 || n == 0x2029 ||
    n == 0x202F || n == 0x205F || n == 0x3000
  }

  predicate IsMarker(c: char)
  {
    c == ZwZero || c == ZwOne
  }

  /** The marker written for one bit: ZW_ONE for 1, ZW_ZERO for 0. */
  function MarkerOf(b: bool): (c: char)
    ensures IsMarker(c) && !IsSpace(c) && c != Star
    ensures (c == ZwOne) == b
  {
    if b then ZwOne else ZwZero
  }

  /** The marker run for a bit string. */
  function Markers(bits: seq<bool>): (r: string)
    ensures |r| == |bits|
  {
    seq(|bits|, i requires 0 <= i < |bits| => MarkerOf(bits[i]))
  }

  /** The bits a run of markers spells: '1' for ZW_ONE, '0' for anything else. */
  function MarkerBits(s: string): (r: seq<bool>)
    ensures |r| == |s|
  {
    seq(|s|, i requires 0 <= i < |s| => s[i] == ZwOne)
  }

  lemma MarkerBitsOfMarkers(bits: seq<bool>)
    ensures MarkerBits(Markers(bits)) == bits
  {
  }

  predicate NoMarkers(s: string)
  {
    forall i :: 0 <= i < |s| ==> !IsMarker(s[i])
  }

  predicate NoStars(s: string)
  {
    forall i :: 0 <= i < |s| ==> s[i] != Star
  }

  predicate NoSpaceChar(w: string)
  {
    forall i :: 0 <= i < |w| ==> w[i] != ' '
  }

  /** str.split(' '): the pieces between single spaces, empty pieces included. */
  function Split(s: string): (r: seq<string>)
    ensures |r| >= 1
  {
    if s == [] then [[]]
    else
      var rest := Split(s[1..]);
      if s[0] == ' ' then [[]] + rest
      else [[s[0]] + rest[0]] + rest[1..]
  }

  /** ' '.join(words). */
  function Join(words: seq<string>): string
  {
    if |words| == 0 then []
    else if |words| == 1 then words[0]
    else words[0] + " " + Join(words[1..])
  }

  /** Joining the pieces of a split gives the text back. */
  lemma {:induction false} JoinSplit(s: string)
    ensures Join(Split(s)) == s
  {
    if s != [] {
      JoinSplit(s[1..]);
      var rest := Split(s[1..]);
      if s[0] == ' ' {
        assert ([[]] + rest)[1..] == rest;
      } else if |rest| > 1 {
        assert ([[s[0]] + rest[0]] + rest[1..])[1..] == rest[1..];
      }
    }
  }

  /** Splitting a join of space-free words gives the words back. */
  lemma {:induction false} SplitJoin(words: seq<string>)
    requires |words| >= 1
    requires forall k :: 0 <= k < |words| ==> NoSpaceChar(words[k])
    ensures Split(Join(words)) == words
  {
    if |words| == 1 {
      SplitWord(words[0], []);
      assert words[0] + [] == words[0];
    } else {
      SplitJoin(words[1..]);
      SplitWord(words[0], " " + Join(words[1..]));
      assert words[0] + " " + Join(words[1..]) == words[0] + (" " + Join(words[1..]));
      var tail := " " + Join(words[1..]);
      assert tail[1..] == Join(words[1..]);
      assert Split(tail) == [[]] + Split(Join(words[1..]));
      assert words[0] + [] == words[0];
      assert words == [words[0]] + words[1..];
    }
  }

  lemma {:induction false} SplitWord(w: string, tail: string)
    requires NoSpaceChar(w)
    requires tail == [] || tail[0] == ' '
    ensures Split(w + tail) == [w + Split(tail)[0]] + Split(tail)[1..]
  {
    if w != [] {
      SplitWord(w[1..], tail);
      assert (w + tail)[1..] == w[1..] + tail;
      assert (w + tail)[0] == w[0] != ' ';
      var rest := Split(w[1..] + tail);
      assert Split(w + tail) == [[w[0]] + rest[0]] + rest[1..];
      assert rest[1..] == Split(tail)[1..];
      assert [w[0]] + (w[1..] + Split(tail)[0]) == w + Split(tail)[0];
    } else {
      assert w + tail == tail;
      var parts := Split(tail);
      if tail != [] {
        assert parts[0] == [];
      }
      assert w + parts[0] == parts[0];
      assert parts == [parts[0]] + parts[1..];
    }
  }

  lemma Assoc<T>(a: seq<T>, b: seq<T>, c: seq<T>)
    ensures a + b + c == a + (b + c)
  {
  }

  /** str.replace('**', ''): removes non-overlapping "**" pairs scanning left to right. */
  function Strip(s: string): string
  {
    if |s| >= 2 && s[0] == Star && s[1] == Star then Strip(s[2..])
    else if s == [] then []
    else [s[0]] + Strip(s[1..])
  }

  /** Text without '*' is left alone, and so is a prefix without '*'. */
  lemma {:induction false} StripPrefix(a: string, b: string)
    requires NoStars(a)
    ensures Strip(a + b) == a + Strip(b)
  {
    if a != [] {
      assert (a + b)[1..] == a[1..] + b;
      StripPrefix(a[1..], b);
    } else {
      assert a + b == b;
    }
  }

  lemma StripNoStars(s: string)
    requires NoStars(s)
    ensures Strip(s) == s
  {
    StripPrefix(s, []);
    assert s + [] == s;
  }
}
