/** The buffered reader of the Rio package: a cache over a read() that delivers the byte stream in
    pieces of its own choosing and may be interrupted, against the plain stream. */
module Rio {
  const RIO_BUFSIZE: nat := 8192
  const EINTR_RESULT: int := -1
  const NEWLINE: char := '\n'

  // ----- What the callers are promised, in terms of the stream alone -----

  function Min(a: nat, b: nat): nat {
    if a < b then a else b
  }

  /** Bytes of a line starting at p: through the newline, at most m bytes, at most to the end. */
  function LineLength(s: seq<char>, p: nat, m: nat): (k: nat)
    requires p <= |s|
    ensures k <= m && p + k <= |s|
    decreases m
  {
    if m == 0 || p == |s| then 0
    else if s[p] == NEWLINE then 1
    else 1 + LineLength(s, p + 1, m - 1)
  }

  /** The line stops at whichever comes first and at nothing else. */
  lemma {:induction false} LineStops(s: seq<char>, p: nat, m: nat)
    requires p <= |s|
    ensures var k := LineLength(s, p, m);
      && (forall i :: p <= i < p + k - 1 ==> s[i] != NEWLINE)
      && (k == m || p + k == |s| || (k > 0 && s[p + k - 1] == NEWLINE))
    decreases m
  {
    if m > 0 && p < |s| && s[p] != NEWLINE {
      LineStops(s, p + 1, m - 1);
    }
  }

  /** That determines the line. */
  lemma {:induction false} LineUnique(s: seq<char>, p: nat, m: nat, k: nat)
    requires p + k <= |s| && k <= m && forall i :: p <= i < p + k - 1 ==> s[i] != NEWLINE
    requires k == m || p + k == |s| || (k > 0 && s[p + k - 1] == NEWLINE)
    ensures LineLength(s, p, m) == k
    decreases k
  {
    if k > 0 && s[p] != NEWLINE {
      LineUnique(s, p + 1, m - 1, k - 1);
    }
  }

  datatype Call = ReadNb(n: nat) | ReadLine(maxlen: nat)

  /** The number of bytes a call at position p hands over. */
  function Length(s: seq<char>, p: nat, c: Call): (k: nat)
    requires p <= |s|
    ensures p + k <= |s|
  {
    match c
    case ReadNb(n) => Min(n, |s| - p)
    case ReadLine(maxlen) => if maxlen == 0 then 0 else LineLength(s, p, maxlen - 1)
  }

  /** k bytes from position p are what the caller asked for, or all there is; a line goes through its
      newline and no further, and leaves room for a NUL. */
  predicate Right(s: seq<char>, p: nat, c: Call, k: nat) {
    && p + k <= |s|
    && match c
       case ReadNb(n) => k <= n && (k == n || p + k == |s|)
       case ReadLine(maxlen) =>
         && k < maxlen && (forall i :: p <= i < p + k - 1 ==> s[i] != NEWLINE)
         && (k == maxlen - 1 || p + k == |s| || (k > 0 && s[p + k - 1] == NEWLINE))
  }

  /** Only one length is right. */
  lemma RightLength(s: seq<char>, p: nat, c: Call, k: nat)
    requires p <= |s| && (c.ReadLine? ==> c.maxlen >= 1)
    ensures Right(s, p, c, k) <==> k == Length(s, p, c)
  {
    if c.ReadLine? {
      LineStops(s, p, c.maxlen - 1);
      if Right(s, p, c, k) {
        LineUnique(s, p, c.maxlen - 1, k);
      }
    }
  }

  /** The pieces a sequence of calls hands over. */
  function Pieces(s: seq<char>, p: nat, cs: seq<Call>): seq<seq<char>>
    requires p <= |s|
    decreases |cs|
  {
    if cs == [] then [] else [s[p..p + Length(s, p, cs[0])]] + Pieces(s, p + Length(s, p, cs[0]), cs[1..])
  }

  function Joined(pieces: seq<seq<char>>): seq<char> {
    if pieces == [] then [] else pieces[0] + Joined(pieces[1..])
  }

  lemma NextPiece(s: seq<char>, p: nat, cs: seq<Call>, i: nat)
    requires p <= |s| && i < |cs|
    ensures var q := p + Length(s, p, cs[i]); Pieces(s, p, cs[i..]) == [s[p..q]] + Pieces(s, q, cs[i + 1..])
  {
    hide Length;
    assert cs[i..][0] == cs[i] && cs[i..][1..] == cs[i + 1..];
  }

  lemma NoPieces(s: seq<char>, p: nat, cs: seq<Call>)
    requires p <= |s|
    ensures Joined([]) == [] && cs[0..] == cs && Pieces(s, p, cs[|cs|..]) == []
  {
  }

  lemma FirstPiece(s: seq<char>, p: nat, cs: seq<Call>)
    requires p <= |s| && cs != []
    ensures var q := p + Length(s, p, cs[0]); Joined(Pieces(s, p, cs)) == s[p..q] + Joined(Pieces(s, q, cs[1..]))
  {
    hide Length;
    var q := p + Length(s, p, cs[0]);
    assert Pieces(s, p, cs)[1..] == Pieces(s, q, cs[1..]);
  }

  /** Any mixture of calls hands over consecutive pieces of the stream. */
  lemma {:induction false} PiecesAreConsecutive(s: seq<char>, p: nat, cs: seq<Call>)
    requires p <= |s|
    ensures p + |Joined(Pieces(s, p, cs))| <= |s|
    ensures Joined(Pieces(s, p, cs)) == s[p..p + |Joined(Pieces(s, p, cs))|]
    decreases |cs|
  {
    if cs != [] {
      hide Length, Joined, Pieces;
      var q := p + Length(s, p, cs[0]);
      PiecesAreConsecutive(s, q, cs[1..]);
      FirstPiece(s, p, cs);
      var rest := Joined(Pieces(s, q, cs[1..]));
      assert s[p..q] + s[q..q + |rest|] == s[p..q + |rest|];
    }
  }

  /** Where piece i of a sequence of calls from position p starts. */
  function Start(p: nat, pieces: seq<seq<char>>, i: nat): nat
    requires i <= |pieces|
  {
    p + |Joined(pieces[..i])|
  }

  /** Piece i starts where the one before it ends, and is of the right length for its call. */
  ghost predicate PieceRight(s: seq<char>, p: nat, cs: seq<Call>, pieces: seq<seq<char>>, i: nat)
    requires i < |cs| == |pieces|
  {
    var q, k := Start(p, pieces, i), |pieces[i]|;
    Right(s, q, cs[i], k) && q + k <= |s| && pieces[i] == s[q..q + k]
  }

  ghost predicate AllRight(s: seq<char>, p: nat, cs: seq<Call>, pieces: seq<seq<char>>) {
    |pieces| == |cs| && forall i: nat :: i < |cs| ==> PieceRight(s, p, cs, pieces, i)
  }

  lemma {:induction false} PiecesAreRight(s: seq<char>, p: nat, cs: seq<Call>)
    requires p <= |s| && forall i :: 0 <= i < |cs| && cs[i].ReadLine? ==> cs[i].maxlen >= 1
    ensures AllRight(s, p, cs, Pieces(s, p, cs))
    decreases |cs|
  {
    hide Length, PieceRight;
    if cs != [] {
      var k := Length(s, p, cs[0]);
      var pieces, rest := Pieces(s, p, cs), Pieces(s, p + k, cs[1..]);
      PiecesAreRight(s, p + k, cs[1..]);
      assert pieces == [s[p..p + k]] + rest && pieces[1..] == rest;
      forall i: nat | i < |cs| ensures PieceRight(s, p, cs, pieces, i) {
        if i == 0 {
          FirstRight(s, p, cs, pieces);
        } else {
          LaterRight(s, p, cs, pieces, i);
        }
      }
    }
  }

  lemma FirstRight(s: seq<char>, p: nat, cs: seq<Call>, pieces: seq<seq<char>>)
    requires p <= |s| && |pieces| == |cs| > 0 && pieces[0] == s[p..p + Length(s, p, cs[0])]
    requires cs[0].ReadLine? ==> cs[0].maxlen >= 1
    ensures PieceRight(s, p, cs, pieces, 0)
  {
    hide Length, Right;
    FirstStart(p, pieces);
    RightLength(s, p, cs[0], Length(s, p, cs[0]));
  }

  lemma LaterRight(s: seq<char>, p: nat, cs: seq<Call>, pieces: seq<seq<char>>, i: nat)
    requires 1 <= i < |cs| == |pieces|
    requires PieceRight(s, p + |pieces[0]|, cs[1..], pieces[1..], i - 1)
    ensures PieceRight(s, p, cs, pieces, i)
  {
    hide Right, Start;
    LaterStart(p, pieces, i);
  }

  lemma FirstStart(p: nat, pieces: seq<seq<char>>)
    requires pieces != []
    ensures Start(p, pieces, 0) == p
  {
  }

  lemma LaterStart(p: nat, pieces: seq<seq<char>>, i: nat)
    requires 1 <= i <= |pieces|
    ensures Start(p, pieces, i) == Start(p + |pieces[0]|, pieces[1..], i - 1)
  {
    assert pieces[..i][0] == pieces[0] && pieces[..i][1..] == pieces[1..][..i - 1];
  }

  predicate Asks(c: Call) {
    if c.ReadNb? then c.n >= 1 else c.maxlen >= 2
  }

  lemma Progress(s: seq<char>, p: nat, c: Call)
    requires p < |s| && Asks(c)
    ensures Length(s, p, c) >= 1
  {
  }

  /** Calls that ask for at least one byte reach the end after as many calls as there are bytes. */
  lemma {:induction false} StreamIsExhausted(s: seq<char>, p: nat, cs: seq<Call>)
    requires p <= |s| && |cs| >= |s| - p && forall i :: 0 <= i < |cs| ==> Asks(cs[i])
    ensures Joined(Pieces(s, p, cs)) == s[p..]
    decreases |cs|
  {
    hide Length, Asks, Joined, Pieces;
    if cs == [] {
      NothingLeft(s, p);
    } else {
      var q := p + Length(s, p, cs[0]);
      if p < |s| {
        Progress(s, p, cs[0]);
      }
      StreamIsExhausted(s, q, cs[1..]);
      FirstPiece(s, p, cs);
      assert s[p..q] + s[q..] == s[p..];
    }
  }

  lemma NothingLeft(s: seq<char>, p: nat)
    requires p == |s|
    ensures Joined(Pieces(s, p, [])) == s[p..]
  {
  }

  lemma RightLine(s: seq<char>, p: nat, maxlen: nat)
    requires p <= |s| && maxlen >= 1
    ensures var k := Length(s, p, ReadLine(maxlen));
      && k < maxlen && NEWLINE !in s[p..if k > 0 then p + k - 1 else p]
      && (k == maxlen - 1 || p + k == |s| || (k > 0 && s[p + k - 1] == NEWLINE))
  {
    LineStops(s, p, maxlen - 1);
  }

  // ----- read() -----

  /** A descriptor: what is still to come, and how often read() will yet be interrupted. */
  class Source {
    const stream: seq<char>
    var pos: nat
    var interrupts: nat

    constructor (stream: seq<char>, interrupts: nat)
      ensures this.stream == stream && pos == 0 && this.interrupts == interrupts
    {
      this.stream := stream;
      this.pos := 0;
      this.interrupts := interrupts;
    }

    /** Delivers some bytes, no more than asked for, or nothing at the end, or is interrupted. */
    method Read(buf: array<char>, n: nat) returns (count: int)
      requires pos <= |stream| && 0 < n <= buf.Length
      modifies this, buf
      ensures old(pos) <= pos <= |stream|
      ensures count == EINTR_RESULT ==> interrupts < old(interrupts) && pos == old(pos) && buf[..] == old(buf[..])
      ensures count != EINTR_RESULT ==> 0 <= count <= n && interrupts == old(interrupts) && pos == old(pos) + count
      ensures count == 0 <==> count != EINTR_RESULT && old(pos) == |stream|
      ensures count > 0 ==> buf[..count] == stream[old(pos)..pos]
    {
      if * {
        if interrupts > 0 {
          interrupts := interrupts - 1;
          return EINTR_RESULT;
        }
      }
      if pos == |stream| {
        return 0;
      }
      var k :| 1 <= k <= n && pos + k <= |stream|;
      forall i | 0 <= i < k {
        buf[i] := stream[pos + i];
      }
      pos := pos + k;
      count := k;
    }
  }

  // ----- The reader -----

  lemma SplitWindow(b: seq<char>, at: nat, s: seq<char>, p: nat, cnt: nat, k: nat)
    requires at + cnt <= |b| && p + cnt <= |s| && k <= cnt && b[at..at + cnt] == s[p..p + cnt]
    ensures b[at..at + k] == s[p..p + k] && b[at + k..at + cnt] == s[p + k..p + cnt]
  {
    assert b[at..at + k] == b[at..at + cnt][..k] && s[p..p + k] == s[p..p + cnt][..k];
    assert b[at + k..at + cnt] == b[at..at + cnt][k..] && s[p + k..p + cnt] == s[p..p + cnt][k..];
  }

  /** A buffer in which w has been stored at index at. */
  function Patched(was: seq<char>, at: nat, w: seq<char>): (now: seq<char>)
    requires at + |w| <= |was|
    ensures |now| == |was| && now[..at + |w|] == was[..at] + w
  {
    was[..at] + w + was[at + |w|..]
  }

  method MemCpy(dst: array<char>, at: nat, src: array<char>, from: nat, count: nat)
    requires dst != src && at + count <= dst.Length && from + count <= src.Length
    modifies dst
    ensures dst[..] == Patched(old(dst[..]), at, src[from..from + count])
  {
    forall i | 0 <= i < count {
      dst[at + i] := src[from + i];
    }
  }

  /** What is stored next continues the part of the stream stored so far. */
  lemma Continued(was: seq<char>, at: nat, w: seq<char>, s: seq<char>, p: nat)
    requires at + |w| <= |was| && p + at + |w| <= |s|
    requires was[..at] == s[p..p + at] && w == s[p + at..p + at + |w|]
    ensures Patched(was, at, w)[..at + |w|] == s[p..p + at + |w|]
  {
    assert s[p..p + at] + s[p + at..p + at + |w|] == s[p..p + at + |w|];
  }

  lemma OneMore(was: seq<char>, at: nat, s: seq<char>, p: nat)
    requires at < |was| && p + at < |s| && was[..at] == s[p..p + at]
    ensures was[at := s[p + at]][..at + 1] == s[p..p + at + 1]
    ensures was[at := s[p + at]][..at] == was[..at]
  {
    assert was[at := s[p + at]][..at + 1] == was[..at] + [s[p + at]];
  }

  /** The bytes of a line, told from the bytes stored. */
  lemma LineStored(s: seq<char>, p: nat, m: nat, line: seq<char>)
    requires p + |line| <= |s| && |line| <= m && line == s[p..p + |line|]
    requires forall i :: 0 <= i < |line| - 1 ==> line[i] != NEWLINE
    requires |line| == m || p + |line| == |s| || (line != [] && line[|line| - 1] == NEWLINE)
    ensures LineLength(s, p, m) == |line|
  {
    forall i | p <= i < p + |line| ensures s[i] == line[i - p] {
    }
    LineUnique(s, p, m, |line|);
  }

  class Reader {
    const source: Source
    const buf: array<char>
    var cnt: int
    var bufptr: nat

    ghost predicate Valid()
      reads this, source, buf
    {
      && buf.Length == RIO_BUFSIZE && source.pos <= |source.stream|
      && 0 <= cnt <= source.pos && bufptr + cnt <= buf.Length
      && buf[bufptr..bufptr + cnt] == source.stream[source.pos - cnt..source.pos]
    }

    /** How much of the stream the callers have been given. */
    ghost function Given(): nat
      requires Valid()
      reads this, source, buf
      ensures Given() <= |source.stream|
    {
      source.pos - cnt
    }

    constructor (source: Source)
      requires source.pos <= |source.stream|
      ensures Valid() && this.source == source && fresh(buf) && Given() == source.pos
    {
      this.source := source;
      buf := new char[RIO_BUFSIZE];
      cnt := 0;
      bufptr := 0;
    }

    /** Refills the buffer if it is empty; it stays empty only at the end of the stream. */
    method Refill()
      requires Valid()
      modifies this, source, buf
      ensures Valid() && Given() == old(Given())
      ensures cnt == 0 <==> Given() == |source.stream|
    {
      while cnt <= 0
        invariant buf.Length == RIO_BUFSIZE && source.pos <= |source.stream| && bufptr <= buf.Length
        invariant if cnt <= 0 then source.pos == old(Given()) else Valid() && Given() == old(Given())
        decreases source.interrupts, cnt <= 0
      {
        cnt := source.Read(buf, RIO_BUFSIZE);
        if cnt < 0 {
        } else if cnt == 0 {
          return;
        } else {
          bufptr := 0;
        }
      }
    }

    method RioRead(usrbuf: array<char>, at: nat, n: nat) returns (count: int)
      requires Valid() && usrbuf != buf && n >= 1 && at + n <= usrbuf.Length
      modifies this, source, buf, usrbuf
      ensures Valid() && 0 <= count <= n
      ensures Given() == old(Given()) + count
      ensures count == 0 <==> old(Given()) == |source.stream|
      ensures usrbuf[..] == Patched(old(usrbuf[..]), at, source.stream[old(Given())..Given()])
    {
      Refill();
      if cnt == 0 {
        assert usrbuf[..] == Patched(usrbuf[..], at, []);
        return 0;
      }
      count := n;
      if cnt < n {
        count := cnt;
      }
      CopyOut(usrbuf, at, count);
    }

    /** The memcpy from the buffer, and the pointer moved past what was copied. */
    method CopyOut(usrbuf: array<char>, at: nat, count: nat)
      requires Valid() && usrbuf != buf && count <= cnt && at + count <= usrbuf.Length
      modifies this, usrbuf
      ensures Valid() && Given() == old(Given()) + count
      ensures usrbuf[..] == Patched(old(usrbuf[..]), at, source.stream[old(Given())..Given()])
    {
      hide Patched;
      ghost var b := buf[..];
      SplitWindow(b, bufptr, source.stream, Given(), cnt, count);
      MemCpy(usrbuf, at, buf, bufptr, count);
      assert buf[..] == b;
      bufptr := bufptr + count;
      cnt := cnt - count;
    }

    /** rio_readnb: all that was asked for, or all there is. */
    method Readnb(usrbuf: array<char>, n: nat) returns (count: int)
      requires Valid() && usrbuf != buf && n <= usrbuf.Length
      modifies this, source, buf, usrbuf
      ensures Valid() && count == Length(source.stream, old(Given()), ReadNb(n))
      ensures Given() == old(Given()) + count && usrbuf[..count] == source.stream[old(Given())..Given()]
      ensures count <= n && (count == n || Given() == |source.stream|)
    {
      hide Valid, Given, Patched;
      var nleft := n;
      while nleft > 0
        invariant 0 <= nleft <= n && Valid()
        invariant Given() == old(Given()) + (n - nleft)
        invariant usrbuf[..n - nleft] == source.stream[old(Given())..Given()]
      {
        ghost var was := usrbuf[..];
        var nread := RioRead(usrbuf, n - nleft, nleft);
        if nread == 0 {
          assert usrbuf[..] == Patched(was, n - nleft, []);
          break;
        }
        Continued(was, n - nleft, source.stream[old(Given()) + (n - nleft)..Given()], source.stream, old(Given()));
        nleft := nleft - nread;
      }
      count := n - nleft;
    }

    /** The call rio_read(rp, &c, 1). */
    method ReadByte() returns (got: int, c: char)
      requires Valid()
      modifies this, source, buf
      ensures Valid() && (got == 0 || got == 1) && Given() == old(Given()) + got
      ensures got == 0 <==> old(Given()) == |source.stream|
      ensures got == 1 ==> c == source.stream[old(Given())]
    {
      var cell := new char[1];
      got := RioRead(cell, 0, 1);
      c := cell[0];
      assert got == 1 ==> c == cell[..][..1][0];
    }

    /** The loop of rio_readlineb: n counts from 1, `at` bytes have been stored. */
    method FillLine(usrbuf: array<char>, maxlen: nat) returns (n: nat, at: nat)
      requires Valid() && usrbuf != buf && 1 <= maxlen <= usrbuf.Length
      modifies this, source, buf, usrbuf
      ensures Valid() && at == Length(source.stream, old(Given()), ReadLine(maxlen)) && Given() == old(Given()) + at
      ensures usrbuf[..at] == source.stream[old(Given())..old(Given()) + at]
      ensures n == if at > 0 && usrbuf[at - 1] == NEWLINE then at else at + 1
    {
      hide Valid, Given, LineLength;
      n, at := 1, 0;
      ghost var p := Given();
      while n < maxlen
        invariant 1 <= n <= maxlen && at == n - 1 && Valid() && Given() == p + at
        invariant usrbuf[..at] == source.stream[p..p + at]
        invariant NEWLINE !in usrbuf[..at]
      {
        var got, c := ReadByte();
        if got != 1 {
          break;
        }
        OneMore(usrbuf[..], at, source.stream, p);
        usrbuf[at] := c;
        at := at + 1;
        if c == NEWLINE {
          break;
        }
        n := n + 1;
      }
      LineStored(source.stream, p, maxlen - 1, usrbuf[..at]);
    }

    /** rio_readlineb: k bytes of a line and a NUL. The value returned is k only when the line ends
        in a newline or nothing was left to read; otherwise it is k + 1. */
    method Readlineb(usrbuf: array<char>, maxlen: nat) returns (rc: int)
      requires Valid() && usrbuf != buf && 1 <= maxlen <= usrbuf.Length
      modifies this, source, buf, usrbuf
      ensures Valid()
      ensures var p, k := old(Given()), Length(source.stream, old(Given()), ReadLine(maxlen));
        && Given() == p + k && usrbuf[..k] == source.stream[p..p + k]
        && rc == (if k == 0 && maxlen > 1 then 0 else if k > 0 && usrbuf[k - 1] == NEWLINE then k else k + 1)
        && (rc != 0 ==> usrbuf[k] == '\0')
      ensures var k := Given() - old(Given());
        && 0 <= k < maxlen && NEWLINE !in usrbuf[..if k > 0 then k - 1 else 0]
        && (k == maxlen - 1 || Given() == |source.stream| || (k > 0 && usrbuf[k - 1] == NEWLINE))
    {
      hide Valid, Given, LineLength;
      ghost var p := Given();
      RightLine(source.stream, p, maxlen);
      var n, at := FillLine(usrbuf, maxlen);
      ghost var m := if at > 0 then at - 1 else 0;
      assert usrbuf[..m] == usrbuf[..at][..m] == source.stream[p..p + at][..m] == source.stream[p..p + m];
      if at == 0 && maxlen > 1 {
        return 0;
      }
      ghost var line := usrbuf[..at];
      usrbuf[at] := '\0';
      assert usrbuf[..at] == line && usrbuf[..m] == line[..m];
      rc := n;
    }

    /** A client that mixes calls as it likes: what it is handed depends on the stream alone, not on
        how read() cuts it up or when it is interrupted. */
    method RunCalls(cs: seq<Call>) returns (pieces: seq<seq<char>>)
      requires Valid() && forall i :: 0 <= i < |cs| && cs[i].ReadLine? ==> cs[i].maxlen >= 1
      modifies this, source, buf
      ensures Valid() && pieces == Pieces(source.stream, old(Given()), cs)
      ensures Given() == old(Given()) + |Joined(pieces)|
      ensures AllRight(source.stream, old(Given()), cs, pieces)
    {
      hide Valid, Given, Length, AllRight, Joined, Pieces;
      PiecesAreRight(source.stream, Given(), cs);
      pieces := [];
      ghost var p := Given();
      NoPieces(source.stream, p, cs);
      var i := 0;
      while i < |cs|
        invariant 0 <= i <= |cs| && Valid() && Given() == p + |Joined(pieces)|
        invariant Pieces(source.stream, p, cs) == pieces + Pieces(source.stream, Given(), cs[i..])
      {
        ghost var q := Given();
        var piece := RunCall(cs[i]);
        JoinedAppend(pieces, piece);
        NextPiece(source.stream, q, cs, i);
        assert pieces + ([piece] + Pieces(source.stream, Given(), cs[i + 1..]))
            == (pieces + [piece]) + Pieces(source.stream, Given(), cs[i + 1..]);
        pieces := pieces + [piece];
        i := i + 1;
      }
      NoPieces(source.stream, Given(), cs);
      assert pieces + [] == pieces;
    }

    method RunCall(c: Call) returns (piece: seq<char>)
      requires Valid() && (c.ReadLine? ==> c.maxlen >= 1)
      modifies this, source, buf
      ensures Valid() && Given() == old(Given()) + |piece| && |piece| == Length(source.stream, old(Given()), c)
      ensures piece == source.stream[old(Given())..old(Given()) + Length(source.stream, old(Given()), c)]
    {
      match c {
        case ReadNb(n) =>
          var usrbuf := new char[n];
          var count := Readnb(usrbuf, n);
          piece := usrbuf[..count];
        case ReadLine(maxlen) =>
          var usrbuf := new char[maxlen];
          var rc := Readlineb(usrbuf, maxlen);
          var k := if rc == 0 || (maxlen >= rc && rc > 0 && usrbuf[rc - 1] == NEWLINE) then rc else rc - 1;
          piece := usrbuf[..k];
      }
    }
  }

  lemma {:induction false} JoinedAppend(pieces: seq<seq<char>>, piece: seq<char>)
    ensures Joined(pieces + [piece]) == Joined(pieces) + piece
  {
    if pieces == [] {
      assert pieces + [piece] == [piece];
      assert Joined([piece]) == piece + Joined([piece][1..]);
    } else {
      assert (pieces + [piece])[1..] == pieces[1..] + [piece];
      JoinedAppend(pieces[1..], piece);
    }
  }
}
