/** Frames exchanged over the program's sockets.

    Every exchange writes fields through a DataOutputStream and reads them back
    through a DataInputStream in the same order. A frame is modelled as the
    sequence of fields written: a writeUTF string, a writeInt, a writeLong, or
    one raw byte of write(byte[]). The byte-level encoding of each field
    (modified UTF-8, big-endian integers) is not modelled; a reader that meets
    a field of the wrong kind, or the end of the frame, fails the way an
    IOException does in the program.
 */
module Wire {

  newtype byte = x: int | 0 <= x < 256

  datatype Option<+T> = None | Some(value: T)

  datatype Token = Utf(text: string) | Int(int32: int) | Long(int64: int) | Octet(octet: byte)

  /** The tokens that write(bs) puts on the stream: one per byte, none for an empty array. */
  function Octets(bs: seq<byte>): seq<Token>
  {
    seq(|bs|, i requires 0 <= i < |bs| => Octet(bs[i]))
  }

  /** The tokens of writeUTF for each name in turn. */
  function Utfs(names: seq<string>): seq<Token>
  {
    seq(|names|, i requires 0 <= i < |names| => Utf(names[i]))
  }

  /** readUTF: the next field must be a string. */
  function ReadUtf(ts: seq<Token>): (r: Option<(string, seq<Token>)>)
    ensures r.Some? <==> |ts| > 0 && ts[0].Utf?
    ensures r.Some? ==> ts == [Utf(r.value.0)] + r.value.1
  {
    if |ts| > 0 && ts[0].Utf? then Some((ts[0].text, ts[1..])) else None
  }

  /** readInt: the next field must be a 32-bit integer. */
  function ReadInt(ts: seq<Token>): (r: Option<(int, seq<Token>)>)
    ensures r.Some? <==> |ts| > 0 && ts[0].Int?
    ensures r.Some? ==> ts == [Int(r.value.0)] + r.value.1
  {
    if |ts| > 0 && ts[0].Int? then Some((ts[0].int32, ts[1..])) else None
  }

  /** readLong: the next field must be a 64-bit integer. */
  function ReadLong(ts: seq<Token>): (r: Option<(int, seq<Token>)>)
    ensures r.Some? <==> |ts| > 0 && ts[0].Long?
    ensures r.Some? ==> ts == [Long(r.value.0)] + r.value.1
  {
    if |ts| > 0 && ts[0].Long? then Some((ts[0].int64, ts[1..])) else None
  }

  /** readFully into an array of n bytes: the next n fields must all be raw bytes. */
  function ReadBytes(ts: seq<Token>, n: nat): (r: Option<(seq<byte>, seq<Token>)>)
    ensures r.Some? <==> n <= |ts| && forall i :: 0 <= i < n ==> ts[i].Octet?
    ensures r.Some? ==> |r.value.0| == n && ts == Octets(r.value.0) + r.value.1
    decreases n
  {
    if n == 0 then Some(([], ts))
    else if |ts| > 0 && ts[0].Octet? then
      match ReadBytes(ts[1..], n - 1)
      case Some((bs, rest)) =>
        assert ts[1..] == Octets(bs) + rest;
        assert Octets([ts[0].octet] + bs) == [ts[0]] + Octets(bs);
        Some(([ts[0].octet] + bs, rest))
      case None =>
        assert !(n <= |ts| && forall i :: 0 <= i < n ==> ts[i].Octet?) by {
          if n <= |ts| && forall i :: 0 <= i < n ==> ts[i].Octet? {
            assert forall i :: 0 <= i < n - 1 ==> ts[1..][i] == ts[i + 1];
          }
        }
        None
    else None
  }

  /** `new byte[(int) size]` followed by readFully: a negative size fails before any read. */
  function ReadPayload(ts: seq<Token>, size: int): (r: Option<(seq<byte>, seq<Token>)>)
    ensures r.Some? <==> 0 <= size <= |ts| && forall i :: 0 <= i < size ==> ts[i].Octet?
    ensures r.Some? ==> |r.value.0| == size && ts == Octets(r.value.0) + r.value.1
  {
    if size < 0 then None else ReadBytes(ts, size)
  }

  /** Reads n strings, one readUTF each. */
  function ReadUtfs(ts: seq<Token>, n: nat): (r: Option<(seq<string>, seq<Token>)>)
    ensures r.Some? <==> n <= |ts| && forall i :: 0 <= i < n ==> ts[i].Utf?
    ensures r.Some? ==> |r.value.0| == n && ts == Utfs(r.value.0) + r.value.1
    decreases n
  {
    if n == 0 then Some(([], ts))
    else if |ts| > 0 && ts[0].Utf? then
      match ReadUtfs(ts[1..], n - 1)
      case Some((names, rest)) =>
        assert ts[1..] == Utfs(names) + rest;
        assert Utfs([ts[0].text] + names) == [ts[0]] + Utfs(names);
        Some(([ts[0].text] + names, rest))
      case None =>
        assert !(n <= |ts| && forall i :: 0 <= i < n ==> ts[i].Utf?) by {
          if n <= |ts| && forall i :: 0 <= i < n ==> ts[i].Utf? {
            assert forall i :: 0 <= i < n - 1 ==> ts[1..][i] == ts[i + 1];
          }
        }
        None
    else None
  }

  /** A listing frame: the count as writeInt, then each name as writeUTF. */
  function NamesFrame(names: seq<string>): seq<Token>
  {
    [Int(|names|)] + Utfs(names)
  }

  /** The set of elements of a sequence. */
  function Elements<T>(s: seq<T>): set<T>
  {
    set x | x in s
  }

  predicate Distinct<T(==)>(s: seq<T>)
  {
    forall i, j :: 0 <= i < j < |s| ==> s[i] != s[j]
  }

  /** `order` lists every element of `s` exactly once, as File.listFiles or a HashSet iteration does. */
  predicate Enumerates<T(==)>(order: seq<T>, s: set<T>)
  {
    Distinct(order) && Elements(order) == s
  }

  /** Reads a listing frame the way the coordinator does: readInt, then that many
      readUTF calls (none when the count is not positive), each added to a set. */
  function ReadNameSet(ts: seq<Token>): (r: Option<(set<string>, seq<Token>)>)
  {
    match ReadInt(ts)
    case None => None
    case Some((count, rest)) =>
      if count <= 0 then Some(({}, rest))
      else
        match ReadUtfs(rest, count)
        case None => None
        case Some((names, rest')) => Some((Elements(names), rest'))
  }

  /** readFully after write: the bytes come back unchanged and the stream is left just past them. */
  lemma {:induction false} ReadBytesOctets(bs: seq<byte>, rest: seq<Token>)
    ensures ReadBytes(Octets(bs) + rest, |bs|) == Some((bs, rest))
  {
    var ts := Octets(bs) + rest;
    assert forall i :: 0 <= i < |bs| ==> ts[i] == Octet(bs[i]);
    var r := ReadBytes(ts, |bs|);
    assert r.Some?;
    var (v, rest') := r.value;
    assert |Octets(v)| == |bs|;
    assert Octets(v) == ts[..|bs|] == Octets(bs);
    assert rest' == ts[|bs|..] == rest;
    OctetsInjective(v, bs);
  }

  lemma OctetsInjective(a: seq<byte>, b: seq<byte>)
    requires |a| == |b|
    requires Octets(a) == Octets(b)
    ensures a == b
  {
    forall i | 0 <= i < |a|
      ensures a[i] == b[i]
    {
      assert Octets(a)[i] == Octets(b)[i];
    }
  }

  lemma UtfsInjective(a: seq<string>, b: seq<string>)
    requires |a| == |b|
    requires Utfs(a) == Utfs(b)
    ensures a == b
  {
    forall i | 0 <= i < |a|
      ensures a[i] == b[i]
    {
      assert Utfs(a)[i] == Utfs(b)[i];
    }
  }

  /** A listing read back yields exactly the set of names written, whatever their order. */
  lemma {:induction false} NamesFrameRoundTrip(names: seq<string>, rest: seq<Token>)
    ensures ReadNameSet(NamesFrame(names) + rest) == Some((Elements(names), rest))
  {
    var ts := NamesFrame(names) + rest;
    assert ts == [Int(|names|)] + (Utfs(names) + rest);
    assert ReadInt(ts) == Some((|names|, Utfs(names) + rest));
    if |names| > 0 {
      var tail := Utfs(names) + rest;
      assert forall i :: 0 <= i < |names| ==> tail[i] == Utf(names[i]);
      var r := ReadUtfs(tail, |names|);
      assert r.Some?;
      var (v, rest') := r.value;
      assert |Utfs(v)| == |names|;
      assert Utfs(v) == tail[..|names|] == Utfs(names);
      assert rest' == tail[|names|..] == rest;
      UtfsInjective(v, names);
    } else {
      assert Utfs(names) + rest == rest;
      assert Elements(names) == {};
    }
  }

  /** A sequence without repetitions has as many elements as its set. */
  lemma {:induction false} DistinctCardinality<T>(s: seq<T>)
    requires Distinct(s)
    ensures |Elements(s)| == |s|
  {
    if s != [] {
      var tail := s[1..];
      assert Distinct(tail) by {
        forall i, j | 0 <= i < j < |tail|
          ensures tail[i] != tail[j]
        {
          assert tail[i] == s[i + 1] && tail[j] == s[j + 1];
        }
      }
      DistinctCardinality(tail);
      assert Elements(s) == Elements(tail) + {s[0]} by {
        assert s == [s[0]] + tail;
      }
      assert s[0] !in Elements(tail) by {
        forall k | 0 <= k < |tail|
          ensures tail[k] != s[0]
        {
          assert tail[k] == s[k + 1];
        }
      }
    }
  }

  /** A listing frame written from an enumeration of a set carries that set's size as its count. */
  lemma EnumerationCount<T>(order: seq<T>, s: set<T>)
    requires Enumerates(order, s)
    ensures |order| == |s|
  {
    DistinctCardinality(order);
  }
}
