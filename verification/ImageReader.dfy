/** The files of an image read as one stream, and the image check that runs over it. */
module ImageReading {
  import opened Wrappers
  import opened MachineInts
  import opened Pieces
  import opened PiecesFile
  import opened PieceCheck
  import opened PiecesEndToEnd

  /** `len` made a multiple of `unit` by adding as little as possible. */
  function RoundUp(len: nat, unit: nat): int
    requires unit > 0
  {
    (len + unit - 1) / unit * unit
  }

  /** The least multiple of `unit` that is not below `len`. */
  lemma RoundUpIsLeast(len: nat, unit: nat)
    requires unit > 0
    ensures len <= RoundUp(len, unit) < len + unit
    ensures exists k: nat :: k * unit == RoundUp(len, unit)
    ensures forall k: nat :: k * unit >= len ==> k * unit >= RoundUp(len, unit)
  {
    var q, sum := (len + unit - 1) / unit, len + unit - 1;
    assert sum == q * unit + sum % unit && 0 <= sum % unit < unit;
    assert (q - 1) * unit == q * unit - unit;
    forall k: nat | k * unit >= len
      ensures k * unit >= q * unit
    {
      if k < q {
        Multiples(k, q - 1, unit);
      } else {
        Multiples(q, k, unit);
      }
    }
  }

  lemma Multiples(j: int, k: int, unit: nat)
    requires j <= k
    ensures j * unit <= k * unit
  {
  }

  /** The first `n` bytes of a file, or all of it when it is shorter. */
  function Head(file: seq<byte>, n: nat): seq<byte> {
    file[..Clip(n, |file|)]
  }

  lemma HeadMeans(file: seq<byte>, n: nat)
    ensures Head(file, n) <= file && |Head(file, n)| == if n < |file| then n else |file|
  {
  }

  /** The image: of each file, the bytes it had at `open`. */
  function Heads(files: seq<seq<byte>>, sizes: seq<nat>): seq<byte>
    requires |files| == |sizes|
  {
    if files == [] then []
    else Heads(files[..|files| - 1], sizes[..|files| - 1]) + Head(files[|files| - 1], sizes[|files| - 1])
  }

  lemma HeadsNext(files: seq<seq<byte>>, sizes: seq<nat>, n: nat)
    requires |files| == |sizes| && n < |files|
    ensures Heads(files[..n + 1], sizes[..n + 1]) == Heads(files[..n], sizes[..n]) + Head(files[n], sizes[n])
  {
    assert files[..n + 1][..n] == files[..n] && sizes[..n + 1][..n] == sizes[..n];
  }

  lemma {:induction false} HeadsGrow(files: seq<seq<byte>>, sizes: seq<nat>, n: nat)
    requires |files| == |sizes| && n <= |files|
    ensures |Heads(files[..n], sizes[..n])| + (if n < |files| then |Head(files[n], sizes[n])| else 0)
         <= |Heads(files, sizes)|
  {
    if n == |files| {
      assert files[..n] == files && sizes[..n] == sizes;
    } else if n + 1 == |files| {
      assert files[..n + 1] == files && sizes[..n + 1] == sizes;
      HeadsNext(files, sizes, n);
    } else {
      var last := |files| - 1;
      HeadsGrow(files[..last], sizes[..last], n);
      assert files[..last][..n] == files[..n] && sizes[..last][..n] == sizes[..n];
    }
  }

  /** How many bytes are asked for: whole sectors, of which fewer come back near the end of a file. */
  function Asked(size: nat, pos: nat, capacity: nat): int {
    if size > pos then Clip(RoundUp(Clip(size - pos, capacity), 512), capacity) else 0
  }

  lemma SomethingAsked(size: nat, pos: nat, capacity: nat)
    ensures 0 <= Asked(size, pos, capacity) <= capacity
    ensures Asked(size, pos, capacity) == 0 <==> size <= pos || capacity == 0
  {
    if size > pos {
      RoundUpIsLeast(Clip(size - pos, capacity), 512);
    }
  }

  /** The operating system's reads, any of which may fail. */
  class Kernel {
    ghost var failures: nat        // reads that failed so far

    constructor ()
      ensures failures == 0
    {
      failures := 0;
    }

    /** One positioned read: an error, the end of the data, or some bytes, perhaps fewer than asked for. */
    method ReadAt(file: seq<byte>, buf: array<byte>, req: nat, pos: nat) returns (r: Option<nat>)
      requires 0 < req <= buf.Length
      modifies this, buf
      ensures failures == old(failures) + if r.None? then 1 else 0
      ensures r.Some? ==>
                && r.value <= req && pos + r.value <= (if pos < |file| then |file| else pos)
                && (r.value == 0 <==> pos >= |file|)
                && buf[..r.value] == if pos < |file| then file[pos..pos + r.value] else []
    {
      if * {
        failures := failures + 1;
        return None;
      }
      if pos >= |file| {
        return Some(0);
      }
      var most := Clip(req, |file| - pos);
      var n: nat :| 1 <= n <= most;
      for i := 0 to n
        invariant buf[..i] == file[pos..pos + i] && failures == old(failures)
      {
        buf[i] := file[pos + i];
      }
      r := Some(n);
    }
  }

  /** `files`: what the files hold while they are read; `sizes`: their lengths at `open`. */
  class ImageReader {
    const kernel: Kernel
    const files: seq<seq<byte>>
    const sizes: seq<nat>
    var index: nat
    var isOpen: bool
    var pos: nat

    ghost predicate Valid()
      reads this
    {
      && |files| == |sizes| && index <= |files|
      && (isOpen ==> index < |files| && pos <= |Head(files[index], sizes[index])|)
    }

    /** The part of the image before the reader's position. */
    ghost function Before(): seq<byte>
      reads this
      requires Valid()
    {
      Heads(files[..index], sizes[..index]) + if isOpen then Head(files[index], sizes[index])[..pos] else []
    }

    lemma BeforeFits()
      requires Valid()
      ensures |Before()| <= |Whole()|
    {
      HeadsGrow(files, sizes, index);
    }

    ghost function Whole(): seq<byte>
      requires |files| == |sizes|
    {
      Heads(files, sizes)
    }

    constructor (kernel: Kernel, files: seq<seq<byte>>, sizes: seq<nat>)
      requires |files| == |sizes|
      ensures Valid() && this.kernel == kernel && this.files == files && this.sizes == sizes && Before() == []
    {
      this.kernel, this.files, this.sizes := kernel, files, sizes;
      index, isOpen, pos := 0, false, 0;
    }

    /** One read from the open file: 0 when nothing more of it belongs to the image. */
    method ReadOpen(buf: array<byte>) returns (r: Option<nat>)
      requires Valid() && isOpen
      modifies this`pos, buf, kernel
      ensures Valid()
      ensures kernel.failures == old(kernel.failures) + if r.None? then 1 else 0
      ensures r.None? || r.value == 0 ==> pos == old(pos)
      ensures r == Some(0) && buf.Length > 0 ==> pos == |Head(files[index], sizes[index])|
      ensures r.Some? && r.value > 0 ==>
                && r.value <= buf.Length && pos == old(pos) + r.value
                && buf[..r.value] == files[index][old(pos)..pos]
    {
      var file, size := files[index], sizes[index];
      SomethingAsked(size, pos, buf.Length);
      var req := Asked(size, pos, buf.Length);
      hide Asked;
      if req == 0 {
        return Some(0);
      }
      r := kernel.ReadAt(file, buf, req, pos);
      if r.Some? && r.value > 0 {
        if pos + r.value > size {
          // Only the bytes the file had when it was opened are of the image
          r := Some(size - pos);
          pos := size;
        } else {
          pos := pos + r.value;
        }
      }
    }

    /** The next bytes of the image, all from one file; 0 at the end; None exactly when a read failed, and
        then a later call goes on at the same place. An empty buffer ends the stream at once. */
    method Read(buf: array<byte>) returns (r: Option<nat>)
      requires Valid()
      modifies this, buf, kernel
      ensures kernel.failures == old(kernel.failures) + if r.None? then 1 else 0
      ensures Valid() && (r.Some? ==> r.value <= buf.Length)
      ensures r.None? && buf.Length > 0 ==> Before() == old(Before())
      ensures r.Some? && buf.Length > 0 ==>
                && Before() == old(Before()) + buf[..r.value]
                && (r.value == 0 ==> Before() == Whole())
                && (r.value > 0 ==> isOpen && r.value <= pos <= |files[index]| && pos <= sizes[index]
                                    && buf[..r.value] == files[index][pos - r.value..pos])
      ensures r.Some? && buf.Length == 0 ==> r.value == 0 && Before() == Whole()
    {
      hide Heads, Head;
      while true
        invariant Valid() && kernel.failures == old(kernel.failures)
        invariant buf.Length > 0 ==> Before() == old(Before())
        decreases |files| - index
      {
        if !isOpen {
          if index == |files| {
            assert files[..index] == files && sizes[..index] == sizes;
            return Some(0);
          }
          isOpen, pos := true, 0;
        }
        ghost var from, head := pos, Head(files[index], sizes[index]);
        r := ReadOpen(buf);
        if r != Some(0) {
          if r.Some? {
            HeadGrows(files[index], sizes[index], from, pos);
          }
          HeadMeans(files[index], sizes[index]);
          return;
        }
        HeadsNext(files, sizes, index);
        assert head[..|head|] == head;
        isOpen := false;
        index := index + 1;
      }
    }
  }

  lemma HeadGrows(file: seq<byte>, size: nat, from: nat, to: nat)
    requires from <= to <= |Head(file, size)|
    ensures |Head(file, size)| <= |file| && Head(file, size)[..to] == Head(file, size)[..from] + file[from..to]
  {
  }

  datatype CheckError = BadPieces(error: LineError) | NoImage | ReadFailed

  /** The verdict on the image whose reads all succeed. */
  function Checked(text: string, image: seq<byte>, H: Hash): Result<Report, CheckError> {
    match CheckAgainst(text, image, H)
    case Ok(report) => Ok(report)
    case Err(e) => Err(BadPieces(e))
  }

  /** The image read once, in whatever chunks the kernel gives, and compared with the pieces file. It is read only
      when the file has a valid header. The check fails because of a read exactly when one failed, and otherwise
      gives the verdict on the whole image. */
  method CheckImage(kernel: Kernel, files: seq<seq<byte>>, sizes: seq<nat>, text: string, H: Hash, chunk: nat)
    returns (r: Result<Report, CheckError>)
    requires |files| == |sizes| && chunk > 0
    modifies kernel
    ensures AfterHeader(text).Err? ==> r == Err(BadPieces(AfterHeader(text).error))
    ensures AfterHeader(text).Ok? && files == [] ==> r == Err(NoImage)
    ensures AfterHeader(text).Err? || files == [] ==> kernel.failures == old(kernel.failures)
    ensures r == Err(ReadFailed) <==> kernel.failures > old(kernel.failures)
    ensures AfterHeader(text).Ok? && files != [] && kernel.failures == old(kernel.failures) ==>
              r == Checked(text, Heads(files, sizes), H)
  {
    hide Heads, Head, ReadAll, ReportOf, PieceChecker.Valid, ImageReader.Valid, ImageReader.Before;
    var start := AfterHeader(text);
    if start.Err? {
      return Err(BadPieces(start.error));
    }
    if files == [] {
      return Err(NoImage);
    }
    var checker := new PieceChecker(start.value, H);
    var read := ReadImage(kernel, files, sizes, checker, chunk);
    if read.None? {
      return Err(ReadFailed);
    }
    var report := checker.Finish(read.value);
    match report {
      case Ok(done) => r := Ok(done);
      case Err(e) => r := Err(BadPieces(e));
    }
  }

  /** Read the files to the end and feed the checker; the number of bytes read, or None when a read failed. */
  method ReadImage(kernel: Kernel, files: seq<seq<byte>>, sizes: seq<nat>, checker: PieceChecker, chunk: nat)
    returns (r: Option<nat>)
    requires |files| == |sizes| && chunk > 0 && checker.Valid() && checker.fed == []
    modifies kernel, checker, checker.reader
    ensures r.None? <==> kernel.failures > old(kernel.failures)
    ensures r.Some? ==> && checker.Valid() && checker.fed == Heads(files, sizes) && r.value == |checker.fed|
                        && kernel.failures == old(kernel.failures)
  {
    hide Heads, Head, ReadAll, ReportOf, PieceChecker.Valid, ImageReader.Valid, ImageReader.Before;
    var reader := new ImageReader(kernel, files, sizes);
    var buf := new byte[chunk];
    var done := 0;
    while true
      invariant checker.Valid() && reader.Valid() && fresh(reader) && fresh(buf)
      invariant checker.fed == reader.Before() && done == |checker.fed| && kernel.failures == old(kernel.failures)
      decreases |Heads(files, sizes)| - |reader.Before()|
    {
      ghost var before := reader.Before();
      var got := reader.Read(buf);
      if got.None? {
        return None;
      }
      if got.value == 0 {
        assert before + buf[..0] == before;
        break;
      }
      checker.Feed(buf[..got.value]);
      done := done + got.value;
      reader.BeforeFits();
    }
    r := Some(done);
  }

  /** The whole way: hash a stream in slices, write the pieces file, and check the files of an image against it,
      read in chunks. Unless a read fails, the report matches exactly when the files hold the stream. */
  method HashWriteCheck(slices: seq<seq<byte>>, size: nat, H: Hash, kernel: Kernel, files: seq<seq<byte>>,
                        sizes: seq<nat>, chunk: nat)
    returns (r: Result<Report, CheckError>)
    requires Flatten(slices) != [] && |Flatten(slices)| <= U64_MAX && forall x :: IsDigest(H(x))
    requires |files| == |sizes| && chunk > 0
    modifies kernel
    ensures files == [] ==> r == Err(NoImage)
    ensures r == Err(ReadFailed) <==> kernel.failures > old(kernel.failures)
    ensures var s, image, p := Flatten(slices), Heads(files, sizes), if size == 0 then 1 else size;
            files != [] && kernel.failures == old(kernel.failures) && NoCollision(s, image, p, H) ==>
              r.Ok? && Vouches(Ok(r.value), s, image, p, H)
  {
    hide *;
    ghost var p := if size == 0 then 1 else size;
    ghost var s := Flatten(slices);
    var rs := HashInSlices(slices, size, H);
    RecordsAre(s, p, H, rs);
    RecordsWritable(s, p, H);
    WritableIsChained(rs);
    var text := WriteAll(rs);
    ReadBackWritten(rs);
    HeaderRead(text, rs);
    r := CheckImage(kernel, files, sizes, text, H, chunk);
    if NoCollision(s, Heads(files, sizes), p, H) {
      RecordsVouch(s, Heads(files, sizes), p, H, text);
      VouchedIsOk(text, s, Heads(files, sizes), p, H);
    }
  }

  lemma HeaderRead(text: string, rs: seq<PieceRecord>)
    requires ReadFile(text) == Ok(rs)
    ensures AfterHeader(text).Ok?
  {
  }

  lemma VouchedIsOk(text: string, s: seq<byte>, image: seq<byte>, size: nat, H: Hash)
    requires size > 0 && Vouches(CheckAgainst(text, image, H), s, image, size, H)
    ensures CheckAgainst(text, image, H).Ok?
    ensures Checked(text, image, H) == Ok(CheckAgainst(text, image, H).value)
  {
  }

  lemma RecordsAre(s: seq<byte>, p: nat, H: Hash, rs: seq<PieceRecord>)
    requires p > 0 && rs == PiecesOf(s, p, H, 0, 0)
    ensures rs == RecordsOf(s, p, H)
  {
  }

  lemma WritableIsChained(rs: seq<PieceRecord>)
    requires Writable(rs)
    ensures Chained(rs, 0, 0)
  {
  }
}
