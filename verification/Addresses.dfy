/// Addresses as texts and as sequences of segments: what parses, what is below what, what is reserved.
module Addresses {
  import opened Text

  const RESERVED_PREFIX := ".sprawling"

  /// The segments of a text: `str::split('/')`.
  function Segments(raw: string): (parts: seq<string>)
    ensures parts != []
  {
    if raw == [] then [[]]
    else
      var rest := Segments(raw[1..]);
      if raw[0] == '/' then [[]] + rest else [[raw[0]] + rest[0]] + rest[1..]
  }

  function Joined(parts: seq<string>): string
    requires parts != []
  {
    if |parts| == 1 then parts[0] else parts[0] + "/" + Joined(parts[1..])
  }

  predicate Canonical(raw: string) {
    && raw != []
    && raw[0] != '/'
    && '\\' !in raw
    && ':' !in raw
    && (forall c | c in raw :: !IsControl(c))
    && (forall part | part in Segments(raw) :: part != "" && part != "." && part != "..")
  }

  /// A canonical text unchanged, and nothing for any other.
  function Parse(raw: string): (address: Option<string>)
    ensures address.Some? ==> address.value == raw
  {
    if Canonical(raw) then Some(raw) else None
  }

  /// The address equals the prefix, or continues it at a segment boundary.
  predicate IsWithin(addr: string, prefix: string) {
    prefix <= addr && (|addr| == |prefix| || addr[|prefix|] == '/')
  }

  predicate IsReserved(addr: string) {
    RESERVED_PREFIX in Segments(addr)
  }

  function Prepended(c: char, parts: seq<string>): seq<string>
    requires parts != []
  {
    if c == '/' then [[]] + parts else [[c] + parts[0]] + parts[1..]
  }

  lemma SegmentsCons(c: char, tail: string)
    ensures Segments([c] + tail) == Prepended(c, Segments(tail))
  {
    assert ([c] + tail)[1..] == tail;
  }

  lemma JoinedPrepended(c: char, parts: seq<string>)
    requires parts != []
    ensures Joined(Prepended(c, parts)) == [c] + Joined(parts)
  {
    if c == '/' {
      assert ([[]] + parts)[1..] == parts;
    } else {
      assert ([[c] + parts[0]] + parts[1..])[1..] == parts[1..];
    }
  }

  lemma {:induction false} JoinedSegments(raw: string)
    ensures Joined(Segments(raw)) == raw
  {
    if raw != [] {
      hide Segments, Joined;
      JoinedSegments(raw[1..]);
      assert raw == [raw[0]] + raw[1..];
      SegmentsCons(raw[0], raw[1..]);
      JoinedPrepended(raw[0], Segments(raw[1..]));
    }
  }

  lemma {:induction false} OneSegment(name: string)
    requires '/' !in name
    ensures Segments(name) == [name]
  {
    if name != [] {
      OneSegment(name[1..]);
      assert name == [name[0]] + name[1..];
    }
  }

  /// A word without separators is an address of one segment.
  lemma PlainWord(word: string)
    requires word != "" && word != "." && word != ".."
    requires forall c | c in word :: !IsControl(c) && c != '/' && c != '\\' && c != ':'
    ensures Canonical(word) && Segments(word) == [word]
  {
    OneSegment(word);
    hide Segments, IsControl;
  }

  lemma PrependedAppend(c: char, l: seq<string>, r: seq<string>)
    requires l != []
    ensures Prepended(c, l + r) == Prepended(c, l) + r
  {
    assert (l + r)[0] == l[0] && (l + r)[1..] == l[1..] + r;
  }

  /// A separator cuts a text into segments independently on its two sides.
  lemma {:induction false} SegmentsOfJoin(left: string, right: string)
    ensures Segments(left + "/" + right) == Segments(left) + Segments(right)
  {
    if left == [] {
      assert left + "/" + right == ['/'] + right;
      SegmentsCons('/', right);
    } else {
      hide Segments;
      var c, tail := left[0], left[1..];
      SegmentsOfJoin(tail, right);
      assert left == [c] + tail;
      assert left + "/" + right == [c] + (tail + "/" + right);
      SegmentsCons(c, tail);
      SegmentsCons(c, tail + "/" + right);
      PrependedAppend(c, Segments(tail), Segments(right));
    }
  }

  lemma {:induction false} JoinedAppend(front: seq<string>, back: seq<string>)
    requires front != [] && back != []
    ensures Joined(front + back) == Joined(front) + "/" + Joined(back)
  {
    if |front| == 1 {
      assert (front + back)[1..] == back;
    } else {
      JoinedAppend(front[1..], back);
      assert (front + back)[1..] == front[1..] + back;
    }
  }

  /// The byte-wise test is the segment-wise one: a subtree is a prefix of segments.
  lemma WithinIsSegmentPrefix(addr: string, prefix: string)
    ensures IsWithin(addr, prefix) <==> Segments(prefix) <= Segments(addr)
  {
    if IsWithin(addr, prefix) { WithinHasPrefix(addr, prefix); }
    if Segments(prefix) <= Segments(addr) { PrefixIsWithin(addr, prefix); }
  }

  lemma WithinHasPrefix(addr: string, prefix: string)
    requires IsWithin(addr, prefix)
    ensures Segments(prefix) <= Segments(addr)
  {
    hide Segments;
    if |addr| > |prefix| {
      assert addr == prefix + "/" + addr[|prefix| + 1..];
      SegmentsOfJoin(prefix, addr[|prefix| + 1..]);
    } else {
      assert addr == prefix;
    }
  }

  lemma PrefixIsWithin(addr: string, prefix: string)
    requires Segments(prefix) <= Segments(addr)
    ensures IsWithin(addr, prefix)
  {
    hide Segments, Joined;
    var a, p := Segments(addr), Segments(prefix);
    JoinedSegments(addr);
    JoinedSegments(prefix);
    if |p| < |a| {
      assert a == p + a[|p|..];
      JoinedAppend(p, a[|p|..]);
    } else {
      assert a == p;
    }
  }

  /// Everything in a subtree of a subtree is in the outer subtree.
  lemma WithinIsTransitive(inner: string, middle: string, outer: string)
    requires IsWithin(inner, middle) && IsWithin(middle, outer)
    ensures IsWithin(inner, outer)
  {
    WithinIsSegmentPrefix(inner, middle);
    WithinIsSegmentPrefix(middle, outer);
    WithinIsSegmentPrefix(inner, outer);
  }

  /// Nothing below a reserved directory escapes being reserved.
  lemma ReservedIsHereditary(inner: string, outer: string)
    requires IsWithin(inner, outer) && IsReserved(outer)
    ensures IsReserved(inner)
  {
    WithinIsSegmentPrefix(inner, outer);
    var i :| 0 <= i < |Segments(outer)| && Segments(outer)[i] == RESERVED_PREFIX;
    assert Segments(inner)[i] == RESERVED_PREFIX;
  }
}
