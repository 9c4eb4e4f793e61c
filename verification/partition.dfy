/** The division of a file into the three contiguous parts that the coordinator
    sends to its three storage nodes (MainServer.ClientHandler.handleSendFile).

    Part i (0-based) covers [i * p, min(i * p + p, L)) of a file of length L,
    where p = ceil(L / 3). The program cuts each part with Arrays.copyOfRange;
    that call is modelled exactly, and so is the one length for which it throws.
    The model keeps both the slicing as written (SliceAsWritten) and the
    slicing with its start clamped to L (Slice), which the rest of the model uses.
 */
module Partition {
  import opened Wire

  /** The number of parts, which is also the number of storage nodes. */
  const PARTS: nat := 3

  function Min(a: int, b: int): int
  {
    if a <= b then a else b
  }

  /** Math.ceil(L / 3.0), on integers: the least p with 3 * p >= L. */
  function PartSize(L: nat): (p: nat)
    ensures PARTS * p >= L
    ensures PARTS * p < L + PARTS
  {
    (L + PARTS - 1) / PARTS
  }

  /** Arrays.copyOfRange(a, from, to): throws unless 0 <= from <= |a| and
      from <= to; positions past the end of `a` are filled with zero bytes. */
  function CopyOfRange(a: seq<byte>, from: int, to: int): (r: Option<seq<byte>>)
    ensures r.Some? <==> 0 <= from <= |a| && from <= to
    ensures r.Some? ==> |r.value| == to - from
    ensures r.Some? ==> forall k :: 0 <= k < |r.value| ==>
                          r.value[k] == if from + k < |a| then a[from + k] else 0
  {
    if from < 0 || from > |a| || from > to then None
    else if to <= |a| then Some(a[from..to])
    else Some(a[from..] + seq(to - |a|, _ => 0 as byte))
  }

  /** The start index the program computes for part i. */
  function StartAsWritten(L: nat, i: nat): nat
  {
    i * PartSize(L)
  }

  /** The end index the program computes for part i. */
  function EndAsWritten(L: nat, i: nat): nat
  {
    Min(i * PartSize(L) + PartSize(L), L)
  }

  /** Part i as the program cuts it; None where copyOfRange throws. */
  function SliceAsWritten(data: seq<byte>, i: nat): Option<seq<byte>>
  {
    CopyOfRange(data, StartAsWritten(|data|, i), EndAsWritten(|data|, i))
  }

  /** The three cuts of the program, in the order it makes them: every cut succeeds
      except the third cut of a one-byte file, and a cut that succeeds is the
      corrected part. */
  function SplitAsWritten(data: seq<byte>): (cuts: seq<Option<seq<byte>>>)
    ensures var parts := Split(data);
            cuts == [Some(parts[0]), Some(parts[1]), if |data| == 1 then None else Some(parts[2])]
  {
    SliceAsWrittenAgrees(data, 0);
    SliceAsWrittenAgrees(data, 1);
    SliceAsWrittenAgrees(data, 2);
    [SliceAsWritten(data, 0), SliceAsWritten(data, 1), SliceAsWritten(data, 2)]
  }

  /** Part i with its start clamped to the file length, so a part past the end is empty. */
  function Slice(data: seq<byte>, i: nat): (part: seq<byte>)
    ensures |part| <= PartSize(|data|)
  {
    var p := PartSize(|data|);
    data[Min(i * p, |data|)..Min(i * p + p, |data|)]
  }

  /** The three parts of a file, part i destined for node i. */
  function Split(data: seq<byte>): (parts: seq<seq<byte>>)
    ensures |parts| == PARTS
    ensures forall i :: 0 <= i < |parts| ==> |parts[i]| <= PartSize(|data|)
  {
    [Slice(data, 0), Slice(data, 1), Slice(data, 2)]
  }

  /** Concatenating the three parts in index order gives back the file. */
  lemma SplitConcat(data: seq<byte>)
    ensures Split(data)[0] + Split(data)[1] + Split(data)[2] == data
  {
    var L := |data|;
    var p := PartSize(L);
    var a, b := Min(p, L), Min(2 * p, L);
    assert Min(3 * p, L) == L;
    assert Split(data)[0] == data[0..a];
    assert Split(data)[1] == data[a..b];
    assert Split(data)[2] == data[b..L];
    assert data[0..a] + data[a..b] == data[0..b];
    assert data[0..b] + data[b..L] == data[0..L];
  }

  /** An empty file gives three empty parts. */
  lemma EmptyFileSplit(data: seq<byte>)
    requires |data| == 0
    ensures Split(data) == [[], [], []]
  {
  }

  /** The program's bounds satisfy start <= end <= L for every part of every
      length except 1, where the third part starts at 2 and ends at 1. */
  lemma WrittenBoundsInRange(L: nat, i: nat)
    requires i < PARTS
    ensures StartAsWritten(L, i) <= EndAsWritten(L, i) <= L <==> L != 1 || i < 2
  {
    var p := PartSize(L);
    if i == 2 && L >= 2 {
      assert 3 * p < L + 3;
      if L >= 4 {
        assert 2 * p <= L;
      } else {
        assert p == 1;
      }
    }
  }

  /** Wherever the program's copyOfRange succeeds it cuts the same part as Slice,
      and it succeeds for every part of every length except 1. */
  lemma SliceAsWrittenAgrees(data: seq<byte>, i: nat)
    requires i < PARTS
    ensures SliceAsWritten(data, i).Some? <==> |data| != 1 || i < 2
    ensures SliceAsWritten(data, i).Some? ==> SliceAsWritten(data, i).value == Slice(data, i)
  {
    var L := |data|;
    WrittenBoundsInRange(L, i);
    var p := PartSize(L);
    if SliceAsWritten(data, i).Some? {
      var s, e := StartAsWritten(L, i), EndAsWritten(L, i);
      assert s <= L;
      assert Min(i * p, L) == s;
      assert Slice(data, i) == data[s..e];
    }
  }

  /** A one-byte file: the first two cuts succeed, the third throws. */
  lemma OneByteFileThirdCutThrows(data: seq<byte>)
    requires |data| == 1
    ensures SplitAsWritten(data) == [Some(data), Some([]), None]
  {
    assert PartSize(1) == 1;
    assert SliceAsWritten(data, 0) == Some(data[0..1]);
    assert data[0..1] == data;
  }

  /** A one-byte file: the corrected cuts give the byte, then two empty parts. */
  lemma OneByteFileSplit(data: seq<byte>)
    requires |data| == 1
    ensures Split(data) == [data, [], []]
  {
    assert PartSize(1) == 1;
    assert Slice(data, 0) == data[0..1] == data;
  }

  /** A file of 9000 bytes is cut into three parts of 3000 bytes. */
  lemma NineThousandByteFile(data: seq<byte>)
    requires |data| == 9000
    ensures Split(data) == [data[..3000], data[3000..6000], data[6000..]]
  {
    assert PartSize(9000) == 3000;
    assert Slice(data, 0) == data[..3000];
    assert Slice(data, 1) == data[3000..6000];
    assert Slice(data, 2) == data[6000..];
  }
}
