/** Receiving and parsing an HTTP request (src/Arduino_10BASE_T1S_HTTP.cpp): the request line of
    section 5.1 of RFC 1945, collected over any number of TCP segments. */
module Http {
  import opened Bytes

  /** HTTP_SERVER_REQ_BUF_SIZE - 1 and the sizes of the fields, without the NUL at their ends */
  const Room: nat := 511
  const MethodRoom: nat := 7
  const PathRoom: nat := 127
  const QueryRoom: nat := 63

  const Space: Byte := 32
  const Mark: Byte := 63
  const CrLfCrLf: seq<Byte> := [13, 10, 13, 10]
  const LfLf: seq<Byte> := [10, 10]

  datatype Request = Request(verb: seq<Byte>, path: seq<Byte>, query: seq<Byte>)

  datatype Parsed = NoSpace | Line(request: Request)

  // ---------------------------------------------------------------- searching

  /** The needle lies at `i`. */
  predicate At(b: seq<Byte>, i: nat, needle: seq<Byte>) { i + |needle| <= |b| && b[i..i + |needle|] == needle }

  ghost predicate Contains(b: seq<Byte>, needle: seq<Byte>) { exists i: nat :: At(b, i, needle) }

  /** The end of the header has come. */
  ghost predicate HasEnd(b: seq<Byte>) { Contains(b, CrLfCrLf) || Contains(b, LfLf) }

  lemma HasEndPrefix(b: seq<Byte>, c: seq<Byte>)
    requires b <= c && HasEnd(b)
    ensures HasEnd(c)
  {
    if Contains(b, CrLfCrLf) { ContainsPrefix(b, c, CrLfCrLf); } else { ContainsPrefix(b, c, LfLf); }
  }

  lemma ContainsPrefix(b: seq<Byte>, c: seq<Byte>, needle: seq<Byte>)
    requires b <= c && Contains(b, needle)
    ensures Contains(c, needle)
  {
    var i: nat :| At(b, i, needle);
    assert c[i..i + |needle|] == b[i..i + |needle|];
    assert At(c, i, needle);
  }

  /** Where a search for `x` from `i` on stops in a text that ends with NUL: at `x`, at a NUL in the
      text, or at its end. */
  function Scan(b: seq<Byte>, i: nat, x: Byte): (j: nat)
    requires i <= |b|
    ensures i <= j <= |b| && (j < |b| ==> b[j] == x || b[j] == 0)
    decreases |b| - i
  {
    if i == |b| || b[i] == x || b[i] == 0 then i else Scan(b, i + 1, x)
  }

  lemma {:induction false} ScanPrefix(b: seq<Byte>, c: seq<Byte>, i: nat, x: Byte)
    requires b <= c && i <= |b| && Scan(b, i, x) < |b|
    ensures Scan(c, i, x) == Scan(b, i, x)
    decreases |b| - i
  {
    if !(b[i] == x || b[i] == 0) { ScanPrefix(b, c, i + 1, x); }
  }

  /** The scan passes over nothing that it looks for. */
  lemma {:induction false} ScanSkips(b: seq<Byte>, i: nat, x: Byte, k: nat)
    requires i <= k <= |b| && forall j | i <= j < k :: b[j] != x && b[j] != 0
    ensures Scan(b, i, x) >= k
    decreases k - i
  {
    if i < k { ScanSkips(b, i + 1, x, k); }
  }

  /** The first question mark of a piece of text, or its length. */
  function FindMark(u: seq<Byte>): (k: nat)
    ensures k <= |u|
  {
    if u == [] || u[0] == Mark then 0 else 1 + FindMark(u[1..])
  }

  // ---------------------------------------------------------------- the request line

  function First(s: seq<Byte>, n: nat): seq<Byte> { s[..Least(n, |s|)] }

  /** The first word cut to an u8_t length and to its field, and the second cut at a question mark. */
  function Parse(b: seq<Byte>): Parsed {
    var i := Scan(b, 0, Space);
    if i == |b| || b[i] == 0 then NoSpace
    else Line(Words(b[..i], b[i + 1..Scan(b, i + 1, Space)]))
  }

  function Words(word: seq<Byte>, uri: seq<Byte>): Request {
    var k := FindMark(uri);
    Request(First(word, Least(|word| % 256, MethodRoom)), First(uri[..k], PathRoom), if k < |uri| then First(uri[k + 1..], QueryRoom) else [])
  }

  /** The parser comes to its result without reaching the end of the text. */
  predicate Stops(b: seq<Byte>) {
    var i := Scan(b, 0, Space);
    i < |b| && (b[i] == 0 || Scan(b, i + 1, Space) < |b|)
  }

  /** Text behind that point plays no part. */
  lemma ParsePrefix(b: seq<Byte>, c: seq<Byte>)
    requires b <= c && Stops(b)
    ensures Parse(c) == Parse(b)
  {
    var i := Scan(b, 0, Space);
    ScanPrefix(b, c, 0, Space);
    if b[i] != 0 {
      ScanPrefix(b, c, i + 1, Space);
      var j := Scan(b, i + 1, Space);
      assert c[..i] == b[..i] && c[i + 1..j] == b[i + 1..j];
    }
  }

  /** Two spaces and no NUL before the second are enough. */
  lemma TwoSpacesStop(b: seq<Byte>, i: nat, j: nat)
    requires i < j < |b| && b[i] == Space && b[j] == Space && forall k | 0 <= k < j :: b[k] != 0
    ensures Stops(b) && Parse(b).Line?
  {
    var s := Scan(b, 0, Space);
    ScanStopsBy(b, 0, Space, i);
    ScanStopsBy(b, s + 1, Space, j);
  }

  lemma {:induction false} ScanStopsBy(b: seq<Byte>, i: nat, x: Byte, k: nat)
    requires i <= k < |b| && b[k] == x
    ensures Scan(b, i, x) <= k
    decreases k - i
  {
    if i < k { ScanStopsBy(b, i + 1, x, k); }
  }

  // ---------------------------------------------------------------- a connection

  /** struct ConnState, whether it is still open, and the requests dispatched. */
  datatype Conn = Conn(text: seq<Byte>, done: bool, open: bool, dispatched: seq<Request>)

  const Fresh := Conn([], false, true, [])

  /** onRecv with a segment of data */
  ghost function OnData(c: Conn, data: seq<Byte>): Conn {
    if !c.open then c
    else
      var text := First(c.text + data, Room);
      if c.done || !HasEnd(text) then c.(text := text)
      else match Parse(text)
           case NoSpace => Conn(text, true, false, c.dispatched)
           case Line(r) => Conn(text, true, true, c.dispatched + [r])
  }

  datatype Segments = Nil | Snoc(before: Segments, data: seq<Byte>)

  function Sent(s: Segments): seq<Byte> { if s.Nil? then [] else Sent(s.before) + s.data }

  ghost function Received(s: Segments): Conn { if s.Nil? then Fresh else OnData(Received(s.before), s.data) }

  /** At most one request is dispatched, and none before the end of the header. */
  lemma {:induction false} AtMostOnce(s: Segments)
    ensures var c := Received(s);
            |c.dispatched| <= 1 && (!c.done ==> c.dispatched == [] && c.open) && |c.text| <= Room
  {
    if s.Snoc? { AtMostOnce(s.before); }
  }

  /** While the connection is open, the text is what was sent, as far as there is room. */
  lemma {:induction false} TextIsSent(s: Segments)
    ensures Received(s).open ==> Received(s).text == First(Sent(s), Room)
  {
    if s.Snoc? {
      TextIsSent(s.before);
      if Received(s.before).open { FirstFirst(Sent(s.before), s.data, Room); }
    }
  }

  lemma FirstFirst(a: seq<Byte>, b: seq<Byte>, n: nat)
    ensures First(First(a, n) + b, n) == First(a + b, n)
  {
    if |a| <= n { assert First(a, n) == a; } else {
      assert First(a + b, n) == a[..n];
    }
  }

  /** The header ends with byte `n` of the stream. */
  ghost predicate EndsAt(stream: seq<Byte>, n: nat) {
    n <= |stream| && HasEnd(stream[..n]) && forall m: nat | m < n :: !HasEnd(stream[..m])
  }

  /** No text behind `h` changes what the parser gets out of the buffer. */
  ghost predicate Settled(h: seq<Byte>) { forall c | h <= c && |c| <= Room :: Parse(c) == Parse(h) }

  /** What is dispatched is the request that the header alone gives, however the stream is cut. */
  lemma {:induction false} SegmentsDoNotMatter(s: Segments, stream: seq<Byte>, n: nat)
    requires Sent(s) <= stream && EndsAt(stream, n) && n <= Room && Settled(stream[..n])
    ensures var c := Received(s);
            var p := Parse(stream[..n]);
            && (c.done <==> |Sent(s)| >= n)
            && (c.open <==> |Sent(s)| < n || p.Line?)
            && c.dispatched == if |Sent(s)| >= n && p.Line? then [p.request] else []
  {
    hide Parse;
    if s.Nil? {
      assert n > 0 by { NoEndInNothing(stream, n); }
    } else {
      assert Sent(s.before) <= Sent(s);
      SegmentsDoNotMatter(s.before, stream, n);
      var c := Received(s.before);
      TextIsSent(s.before);
      if c.open && !c.done {
        FirstFirst(Sent(s.before), s.data, Room);
        EndShows(stream, n, Sent(s));
      }
    }
  }

  lemma NoEndInNothing(stream: seq<Byte>, n: nat)
    requires n <= |stream| && HasEnd(stream[..n])
    ensures n > 0
  {
  }

  /** The end of the header shows in the buffer exactly if it has been sent. */
  lemma EndShows(stream: seq<Byte>, n: nat, sent: seq<Byte>)
    requires sent <= stream && EndsAt(stream, n) && n <= Room
    ensures HasEnd(First(sent, Room)) <==> |sent| >= n
    ensures |sent| >= n ==> stream[..n] <= First(sent, Room)
  {
    var t := First(sent, Room);
    assert t == stream[..|t|];
    if |sent| >= n {
      assert stream[..n] <= t;
      HasEndPrefix(stream[..n], t);
    }
  }

  /** All ways of cutting any stream that starts with the header `h` dispatch the same. */
  ghost predicate CutsAgree(h: seq<Byte>) {
    forall s, t | Sent(s) == Sent(t) && h <= Sent(s) ::
      Received(s).dispatched == Received(t).dispatched && Received(s).open == Received(t).open
  }

  /** The condition on the header alone: the buffer is full, the parser stops within it, or there is
      only one space and the query field is full already; with one byte of room left, a full path
      field is enough as well. */
  predicate Fixed(h: seq<Byte>) {
    var i := Scan(h, 0, Space);
    || |h| >= Room
    || Stops(h)
    || (i < |h| && h[i] == Space && (var uri := h[i + 1..]; var k := FindMark(uri);
          if k < |uri| then |uri| - k - 1 >= QueryRoom else |h| + 1 == Room && |uri| >= PathRoom))
  }

  /** Segmentation plays no part in what is dispatched exactly if the header is `Fixed`. */
  lemma CutsAgreeExactly(h: seq<Byte>)
    requires EndsAt(h, |h|) && |h| <= Room
    ensures CutsAgree(h) <==> Fixed(h)
  {
    SettledExactly(h);
    hide Fixed, Settled;
    if Fixed(h) {
      forall s, t | Sent(s) == Sent(t) && h <= Sent(s)
        ensures Received(s).dispatched == Received(t).dispatched && Received(s).open == Received(t).open
      {
        SameDispatch(s, t, h);
      }
    } else {
      UnsettledDiffers(h);
    }
  }

  /** The header "G\n\n" without a space: sent alone it closes the connection, and a space that
      comes along with it makes a request of it. */
  lemma HeaderWithoutSpace()
    ensures var h: seq<Byte> := [71, 10, 10]; EndsAt(h, |h|) && !CutsAgree(h)
  {
    var h: seq<Byte> := [71, 10, 10];
    assert h[..3] == h && h[1..3] == LfLf;
    assert At(h, 1, LfLf);
    forall m: nat | m < 3 ensures !HasEnd(h[..m]) {
      forall i: nat ensures !At(h[..m], i, LfLf) && !At(h[..m], i, CrLfCrLf) {
        if i + 2 <= m { assert h[..m][i..i + 2][0] == 71; }
      }
    }
    ScanSkips(h, 0, Space, 3);
    hide HasEnd;
    CutsAgreeExactly(h);
  }

  lemma SameDispatch(s: Segments, t: Segments, h: seq<Byte>)
    requires Sent(s) == Sent(t) && h <= Sent(s) && EndsAt(h, |h|) && |h| <= Room && Settled(h)
    ensures Received(s).dispatched == Received(t).dispatched && Received(s).open == Received(t).open
  {
    hide Settled, Received, HasEnd, Sent, Parse;
    EndsWithin(h, Sent(s));
    SegmentsDoNotMatter(s, Sent(s), |h|);
    SegmentsDoNotMatter(t, Sent(s), |h|);
  }

  lemma EndsWithin(h: seq<Byte>, stream: seq<Byte>)
    requires h <= stream && EndsAt(h, |h|)
    ensures stream[..|h|] == h && EndsAt(stream, |h|)
  {
    assert h[..|h|] == h && stream[..|h|] == h;
    hide HasEnd;
    forall m: nat | m < |h| ensures !HasEnd(stream[..m]) {
      assert stream[..m] == h[..m];
    }
  }

  /** If some text behind the header changes the result, sending it on its own or along with the
      header makes a difference. */
  lemma UnsettledDiffers(h: seq<Byte>)
    requires EndsAt(h, |h|) && !Settled(h)
    ensures !CutsAgree(h)
  {
    var c :| h <= c && |c| <= Room && Parse(c) != Parse(h);
    assert h[..|h|] == h;
    hide Settled, Parse;
    var s, t := TwoCuts(h, c);
  }

  lemma TwoCuts(h: seq<Byte>, c: seq<Byte>) returns (s: Segments, t: Segments)
    requires HasEnd(h) && h <= c && |c| <= Room && Parse(c) != Parse(h)
    ensures Sent(s) == Sent(t) && h <= Sent(s)
    ensures Received(s).dispatched != Received(t).dispatched || Received(s).open != Received(t).open
  {
    HasEndPrefix(h, c);
    var d := c[|h|..];
    assert h + d == c;
    s, t := Snoc(Snoc(Nil, h), d), Snoc(Nil, c);
    hide Parse, HasEnd, Received, Sent;
    OneSegment(h);
    OneSegment(c);
    DoneStays(Snoc(Nil, h), d);
    if Parse(c).Line? && Parse(h).Line? {
      assert [Parse(c).request][0] != [Parse(h).request][0];
    }
  }

  /** Once the header has been handled, nothing more is dispatched. */
  lemma DoneStays(s: Segments, d: seq<Byte>)
    ensures Received(s).done || !Received(s).open ==>
      Received(Snoc(s, d)).dispatched == Received(s).dispatched && Received(Snoc(s, d)).open == Received(s).open
    ensures Sent(Snoc(s, d)) == Sent(s) + d
  {
  }

  // ---------------------------------------------------------------- when later text plays no part

  lemma SettledExactly(h: seq<Byte>)
    requires |h| <= Room
    ensures Settled(h) <==> Fixed(h)
  {
    if Fixed(h) {
      forall c | h <= c && |c| <= Room ensures Parse(c) == Parse(h) { FixedParse(h, c); }
    } else {
      var x := Unfixed(h);
      assert h <= h + x;
    }
  }

  lemma FixedParse(h: seq<Byte>, c: seq<Byte>)
    requires Fixed(h) && h <= c && |c| <= Room
    ensures Parse(c) == Parse(h)
  {
    hide Parse, FindMark, Words, Scan;
    if |c| == |h| {
      assert c == h;
    } else if Stops(h) {
      ParsePrefix(h, c);
    } else {
      FullField(h, c);
    }
  }

  lemma FullField(h: seq<Byte>, c: seq<Byte>)
    requires h <= c && |h| < |c| <= Room && !Stops(h)
    requires var i := Scan(h, 0, Space);
             && i < |h| && h[i] == Space
             && (var uri := h[i + 1..]; var k := FindMark(uri);
                 if k < |uri| then |uri| - k - 1 >= QueryRoom else |h| + 1 == Room && |uri| >= PathRoom)
    ensures Parse(c) == Parse(h)
  {
    hide Parse, FindMark, Words, Scan, Stops;
    OneSpace(h, c);
    var i := Scan(h, 0, Space);
    WordsFull(h[..i], h[i + 1..], c[i + 1..Scan(c, i + 1, Space)], |h| + 1 == Room);
  }

  /** With one space in the header, later text makes the second word longer. */
  lemma OneSpace(h: seq<Byte>, c: seq<Byte>)
    requires h <= c && !Stops(h)
    requires var i := Scan(h, 0, Space); i < |h| && h[i] == Space
    ensures var i := Scan(h, 0, Space);
            var j := Scan(c, i + 1, Space);
            && Parse(h) == Line(Words(h[..i], h[i + 1..])) && j >= |h|
            && Parse(c) == Line(Words(h[..i], c[i + 1..j])) && h[i + 1..] <= c[i + 1..j] && |c[i + 1..j]| - |h[i + 1..]| <= |c| - |h|
  {
    hide Words, Scan;
    var i := Scan(h, 0, Space);
    ScanPrefix(h, c, 0, Space);
    ScanClear(h, i + 1, Space);
    ScanSkips(c, i + 1, Space, |h|);
    assert c[..i] == h[..i] && h[i + 1..|h|] == h[i + 1..];
  }

  /** A scan that comes to the end has met nothing on its way. */
  lemma {:induction false} ScanClear(b: seq<Byte>, i: nat, x: Byte)
    requires i <= |b| && Scan(b, i, x) == |b|
    ensures forall j | i <= j < |b| :: b[j] != x && b[j] != 0
    decreases |b| - i
  {
    if i < |b| { ScanClear(b, i + 1, x); }
  }

  lemma {:induction false} MarkPrefix(u: seq<Byte>, v: seq<Byte>)
    requires u <= v
    ensures FindMark(u) < |u| ==> FindMark(v) == FindMark(u)
    ensures FindMark(u) == |u| ==> FindMark(v) == |u| + FindMark(v[|u|..])
  {
    if u != [] && u[0] != Mark {
      MarkPrefix(u[1..], v[1..]);
      assert v[1..][|u| - 1..] == v[|u|..];
    }
  }

  lemma FirstFull(u: seq<Byte>, v: seq<Byte>, n: nat)
    requires u <= v && n <= |u|
    ensures First(v, n) == First(u, n)
  {
  }

  lemma WordsFull(word: seq<Byte>, u: seq<Byte>, v: seq<Byte>, oneLeft: bool)
    requires u <= v && (oneLeft ==> |v| <= |u| + 1)
    requires var k := FindMark(u); if k < |u| then |u| - k - 1 >= QueryRoom else oneLeft && |u| >= PathRoom
    ensures Words(word, v) == Words(word, u)
  {
    hide FindMark;
    MarkPrefix(u, v);
    var k := FindMark(u);
    if k < |u| {
      assert v[..k] == u[..k];
      FirstFull(u[k + 1..], v[k + 1..], QueryRoom);
    } else {
      FirstFull(u, v[..FindMark(v)], PathRoom);
      assert u[..k] == u;
    }
  }

  /** Text behind a header that is not fixed which changes the result. */
  lemma Unfixed(h: seq<Byte>) returns (x: seq<Byte>)
    requires !Fixed(h)
    ensures |h + x| <= Room && Parse(h + x) != Parse(h)
  {
    hide Parse, FindMark, Scan;
    var i := Scan(h, 0, Space);
    if i == |h| {
      x := [Space];
      SpaceCounts(h);
    } else {
      var u := h[i + 1..];
      x := if FindMark(u) < |u| || |h| + 1 == Room then [97] else [Mark, 97];
      LongerWord(h, i, x);
    }
  }

  /** A space behind a header without one. */
  lemma SpaceCounts(h: seq<Byte>)
    requires Scan(h, 0, Space) == |h|
    ensures Parse(h + [Space]) != Parse(h)
  {
    var c := h + [Space];
    ScanClear(h, 0, Space);
    ScanSkips(c, 0, Space, |h|);
    ScanStopsBy(c, 0, Space, |h|);
    hide Scan;
    ParseFirst(h, |h|);
    ParseFirst(c, |h|);
  }

  /** More letters behind a header with one space. */
  lemma LongerWord(h: seq<Byte>, i: nat, x: seq<Byte>)
    requires !Stops(h) && i == Scan(h, 0, Space) < |h| && h[i] == Space && (x == [97] || x == [Mark, 97])
    requires var u := h[i + 1..];
             var k := FindMark(u);
             && (k < |u| ==> |u| - k - 1 < QueryRoom && x == [97])
             && (k == |u| ==> x == [Mark, 97] || (x == [97] && |u| < PathRoom))
    ensures Parse(h + x) != Parse(h)
  {
    hide FindMark, Parse, Words, Scan;
    var u, c := h[i + 1..], h + x;
    ScanWhole(h, x, i);
    OneSpace(h, c);
    assert c[i + 1..|c|] == u + x;
    WordsGrow(h[..i], u, x);
  }

  /** A scan passes over appended letters and marks. */
  lemma ScanWhole(h: seq<Byte>, x: seq<Byte>, i: nat)
    requires i < |h| && Scan(h, i + 1, Space) == |h| && (x == [97] || x == [Mark, 97])
    ensures Scan(h + x, i + 1, Space) == |h + x|
  {
    ScanClear(h, i + 1, Space);
    ScanSkips(h + x, i + 1, Space, |h + x|);
  }

  lemma WordsGrow(word: seq<Byte>, u: seq<Byte>, x: seq<Byte>)
    requires FindMark(u) < |u| ==> |u| - FindMark(u) - 1 < QueryRoom && x == [97]
    requires FindMark(u) == |u| ==> x == [Mark, 97] || (x == [97] && |u| < PathRoom)
    ensures Words(word, u + x) != Words(word, u)
  {
    hide FindMark, Words;
    var k, v := FindMark(u), u + x;
    MarkPrefix(u, v);
    assert v[|u|..] == x;
    MarkOf(x);
    if k < |u| {
      QueryIs(word, u, k);
      QueryIs(word, v, k);
    } else if x == [97] {
      PathIs(word, u, k);
      PathIs(word, v, k + 1);
    } else {
      NoQuery(word, u, k);
      QueryIs(word, v, k);
    }
  }

  lemma MarkOf(x: seq<Byte>)
    requires x == [97] || x == [Mark, 97]
    ensures FindMark(x) == if x == [97] then 1 else 0
  {
    if x == [97] { AfterLetter(x); }
  }

  lemma AfterLetter(x: seq<Byte>)
    requires x == [97]
    ensures FindMark(x) == 1
  {
    assert x[1..] == [];
  }

  lemma QueryIs(word: seq<Byte>, u: seq<Byte>, k: nat)
    requires k == FindMark(u) < |u|
    ensures |Words(word, u).query| == Least(QueryRoom, |u| - k - 1)
  {
  }

  lemma NoQuery(word: seq<Byte>, u: seq<Byte>, k: nat)
    requires k == FindMark(u) == |u|
    ensures Words(word, u).query == []
  {
  }

  lemma PathIs(word: seq<Byte>, u: seq<Byte>, k: nat)
    requires k == FindMark(u)
    ensures |Words(word, u).path| == Least(PathRoom, k)
  {
  }

  lemma ParseFirst(b: seq<Byte>, i: nat)
    requires Scan(b, 0, Space) == i
    ensures Parse(b).Line? == (i < |b| && b[i] != 0)
  {
  }

  /** A header in one segment. */
  lemma OneSegment(a: seq<Byte>)
    requires HasEnd(a) && |a| <= Room
    ensures Sent(Snoc(Nil, a)) == a && Received(Snoc(Nil, a)).done && Received(Snoc(Nil, a)).open == Parse(a).Line?
    ensures Received(Snoc(Nil, a)).dispatched == if Parse(a).Line? then [Parse(a).request] else []
  {
    hide Parse, HasEnd;
    assert Received(Nil) == Fresh && Sent(Nil) == [] && [] + a == a && First(a, Room) == a;
  }

  // ---------------------------------------------------------------- a request as it is written

  /** An empty line: LF LF, or CR LF CR LF. */
  ghost predicate BlankLine(b: seq<Byte>) { exists i: nat :: BlankAt(b, i) }

  predicate BlankAt(b: seq<Byte>, i: nat) {
    i + 1 < |b| && b[i] == 10 && (b[i + 1] == 10 || (i > 0 && b[i - 1] == 13 && b[i + 1] == 13 && i + 2 < |b| && b[i + 2] == 10))
  }

  lemma EndIsBlankLine(b: seq<Byte>)
    ensures HasEnd(b) <==> BlankLine(b)
  {
    if BlankLine(b) {
      var i: nat :| BlankAt(b, i);
      if b[i + 1] == 10 {
        assert b[i..i + 2] == LfLf;
        assert At(b, i, LfLf);
      } else {
        assert b[i - 1..i + 3] == CrLfCrLf;
        assert At(b, i - 1, CrLfCrLf);
      }
    }
    if Contains(b, LfLf) {
      var i: nat :| At(b, i, LfLf);
      assert b[i..i + 2][0] == b[i] && b[i..i + 2][1] == b[i + 1];
      assert BlankAt(b, i);
    }
    if Contains(b, CrLfCrLf) {
      var i: nat :| At(b, i, CrLfCrLf);
      var w := b[i..i + 4];
      assert w[0] == b[i] && w[1] == b[i + 1] && w[2] == b[i + 2] && w[3] == b[i + 3];
      assert BlankAt(b, i + 1);
    }
  }

  /** Nothing is dispatched before an empty line has come. */
  lemma {:induction false} NothingBeforeBlankLine(s: Segments)
    requires !BlankLine(Sent(s))
    ensures !Received(s).done && Received(s).open && Received(s).dispatched == []
  {
    if s.Snoc? {
      hide HasEnd, BlankLine, Parse;
      NoneEarlier(Sent(s.before), Sent(s));
      NothingBeforeBlankLine(s.before);
      TextIsSent(s.before);
      FirstFirst(Sent(s.before), s.data, Room);
      NoneEarlier(First(Sent(s), Room), Sent(s));
      EndIsBlankLine(First(Sent(s), Room));
    }
  }

  lemma NoneEarlier(a: seq<Byte>, b: seq<Byte>)
    requires a <= b && !BlankLine(b)
    ensures !BlankLine(a)
  {
    forall i: nat ensures !BlankAt(a, i) { assert !BlankAt(b, i); }
  }

  /** The bytes of a word of the request line. */
  ghost predicate Plain(w: seq<Byte>) { forall x | x in w :: x != 0 && x != 10 && x != 32 }

  /** The second word, with or without a query. */
  function Uri(path: seq<Byte>, query: seq<Byte>, asked: bool): seq<Byte> { if asked then path + [63] + query else path }

  /** A request line is answered by its words: the method cut to an u8_t length and to 7 bytes, the
      path to 127 and the query to 63. Neither the rest of the header, nor what follows it, nor
      the cutting into segments plays a part. */
  lemma RequestIsDispatched(s: Segments, verb: seq<Byte>, path: seq<Byte>, query: seq<Byte>, asked: bool, rest: seq<Byte>)
    requires Plain(verb) && Plain(path) && Plain(query) && 63 !in path
    requires var text := verb + [32] + Uri(path, query, asked) + [32] + rest;
             text <= Sent(s) && |text| <= 511 && BlankLine(text)
    ensures Received(s).open && Received(s).dispatched ==
            [Request(verb[..Least(|verb| % 256, 7)], path[..Least(|path|, 127)], if asked then query[..Least(|query|, 63)] else [])]
  {
    var uri := Uri(path, query, asked);
    var line := verb + [32] + uri + [32];
    var text := line + rest;
    assert text == verb + [32] + uri + [32] + rest;
    LineParses(verb, uri);
    WordsWritten(verb, path, query, asked);
    hide Parse, HasEnd, BlankLine, Received, Sent, Words, Stops, Uri, EndsAt;
    var n := LineSettles(line, text, Sent(s));
    SegmentsDoNotMatter(s, Sent(s), n);
  }

  /** The line is complete before the header ends. */
  lemma LineSettles(line: seq<Byte>, text: seq<Byte>, stream: seq<Byte>) returns (n: nat)
    requires line <= text <= stream && |text| <= Room && Stops(line) && 10 !in line && BlankLine(text)
    ensures n <= |stream| && n <= Room && EndsAt(stream, n) && Settled(stream[..n]) && Parse(stream[..n]) == Parse(line)
  {
    EndIsBlankLine(text);
    HasEndPrefix(text, stream);
    n := FirstEnd(stream);
    assert stream[..|text|] == text;
    assert n <= |text|;
    hide HasEnd, Parse, Stops;
    BlankBehind(line, stream, n);
    assert line <= stream[..n];
    ParsePrefix(line, stream[..n]);
    forall c | stream[..n] <= c && |c| <= Room ensures Parse(c) == Parse(stream[..n]) { ParsePrefix(line, c); }
  }

  lemma BlankBehind(line: seq<Byte>, stream: seq<Byte>, n: nat)
    requires line <= stream && 10 !in line && n <= |stream| && HasEnd(stream[..n])
    ensures |line| < n
  {
    forall k: nat | k < |line| ensures stream[k] != 10 { assert stream[k] == line[k] && line[k] in line; }
    EndIsBlankLine(stream[..n]);
    var i: nat :| BlankAt(stream[..n], i);
  }

  /** Where the header ends. */
  lemma {:induction false} FirstEnd(stream: seq<Byte>) returns (n: nat)
    requires HasEnd(stream)
    ensures n <= |stream| && EndsAt(stream, n)
  {
    hide HasEnd;
    assert stream[..|stream|] == stream;
    if m: nat :| m < |stream| && HasEnd(stream[..m]) {
      n := FirstEnd(stream[..m]);
      forall k: nat | k <= m ensures stream[..m][..k] == stream[..k] {}
    } else {
      n := |stream|;
    }
  }

  lemma LineParses(verb: seq<Byte>, uri: seq<Byte>)
    requires forall x | x in verb :: x != 0 && x != 32
    requires forall x | x in uri :: x != 0 && x != 32
    ensures var line := verb + [32] + uri + [32]; Stops(line) && Parse(line) == Line(Words(verb, uri))
  {
    var line := verb + [32] + uri + [32];
    var i, j := |verb|, |verb| + 1 + |uri|;
    assert line[i] == 32 && line[j] == 32;
    assert line[..i] == verb && line[i + 1..j] == uri;
    forall k | 0 <= k < i ensures line[k] != 0 && line[k] != 32 { assert line[k] == verb[k] && verb[k] in verb; }
    forall k | i + 1 <= k < j ensures line[k] != 0 && line[k] != 32 { assert line[k] == uri[k - i - 1] && uri[k - i - 1] in uri; }
    ScanSkips(line, 0, Space, i);
    ScanStopsBy(line, 0, Space, i);
    ScanSkips(line, i + 1, Space, j);
    ScanStopsBy(line, i + 1, Space, j);
  }

  lemma {:induction false} MarkBehind(path: seq<Byte>, rest: seq<Byte>)
    requires 63 !in path && (rest == [] || rest[0] == 63)
    ensures FindMark(path + rest) == |path|
  {
    if path == [] {
      assert path + rest == rest;
    } else {
      assert (path + rest)[1..] == path[1..] + rest;
      MarkBehind(path[1..], rest);
    }
  }

  lemma WordsWritten(verb: seq<Byte>, path: seq<Byte>, query: seq<Byte>, asked: bool)
    requires 63 !in path
    ensures Words(verb, Uri(path, query, asked)) ==
            Request(verb[..Least(|verb| % 256, 7)], path[..Least(|path|, 127)], if asked then query[..Least(|query|, 63)] else [])
  {
    hide FindMark;
    var uri := Uri(path, query, asked);
    if asked {
      MarkBehind(path, [63] + query);
      assert uri == path + ([63] + query);
      assert uri[..|path|] == path && uri[|path| + 1..] == query;
    } else {
      MarkBehind(path, []);
      assert path + [] == path && uri[..|path|] == path;
    }
  }

  // ---------------------------------------------------------------- the callback

  class Connection {
    const buf: array<Byte>
    var len: nat
    var done: bool
    var open: bool
    /** what the handlers were called with */
    var dispatched: seq<Request>

    /** The text in the buffer is followed by NUL. */
    ghost predicate Valid()
      reads this, buf
    {
      buf.Length == Room + 1 && len <= Room && buf[len] == 0
    }

    ghost function Now(): Conn
      requires Valid()
      reads this, buf
    {
      Conn(buf[..len], done, open, dispatched)
    }

    constructor ()
      ensures Valid() && Now() == Fresh && fresh(buf)
    {
      buf := new Byte[Room + 1](_ => 0);
      len, done, open, dispatched := 0, false, true, [];
    }

    /** mem_find: the first place of the needle in the text, or -1; an empty needle is not found. */
    method MemFind(needle: seq<Byte>) returns (r: int)
      requires Valid()
      ensures r >= 0 ==> needle != [] && At(buf[..len], r, needle) && forall j | 0 <= j < r :: !At(buf[..len], j, needle)
      ensures r < 0 ==> needle == [] || !Contains(buf[..len], needle)
    {
      if needle == [] || len < |needle| { return -1; }
      var i := 0;
      while i <= len - |needle|
        invariant i <= len - |needle| + 1 && forall j | 0 <= j < i :: !At(buf[..len], j, needle)
      {
        if buf[i..i + |needle|] == needle {
          assert buf[..len][i..i + |needle|] == buf[i..i + |needle|];
          return i;
        }
        assert buf[..len][i..i + |needle|] == buf[i..i + |needle|];
        i := i + 1;
      }
      return -1;
    }

    /** strchr, and strlen when the character does not come: search from `i` on up to NUL. */
    method StrChr(i: nat, x: Byte) returns (j: nat)
      requires Valid() && i <= len
      ensures j == Scan(buf[..len], i, x) <= len && (buf[j] == x || buf[j] == 0)
    {
      j := i;
      while buf[j] != x && buf[j] != 0
        invariant i <= j <= len && Scan(buf[..len], i, x) == Scan(buf[..len], j, x)
        decreases len - j
      {
        j := j + 1;
      }
    }

    /** memchr for the question mark in a piece of the text; the end if there is none. */
    method MemChr(i: nat, j: nat) returns (k: nat)
      requires Valid() && i <= j <= len
      ensures i <= k <= j && k - i == FindMark(buf[..len][i..j])
    {
      assert buf[..len][i..j] == buf[i..j];
      k := i;
      while k < j && buf[k] != Mark
        invariant i <= k <= j && FindMark(buf[i..j]) == k - i + FindMark(buf[k..j])
      {
        assert buf[k..j][1..] == buf[k + 1..j];
        k := k + 1;
      }
    }

    /** Append a segment to the text, as far as there is room. */
    method Append(data: seq<Byte>)
      requires Valid()
      modifies this`len, buf
      ensures Valid() && buf[..len] == First(old(buf[..len]) + data, Room)
    {
      ghost var text := buf[..len];
      var k: nat := if |data| > Room - len then Room - len else |data|;
      forall i | 0 <= i < k { buf[len + i] := data[i]; }
      assert buf[..len + k] == text + data[..k];
      assert First(text + data, Room) == text + data[..k];
      len := len + k;
      ghost var all := buf[..len];
      buf[len] := 0;
      assert buf[..len] == all;
    }

    /** onRecv: collect the request; when the header is complete, parse its first line and call the
        handler. */
    method OnRecv(data: seq<Byte>)
      requires Valid() && |data| < 0x10000
      modifies this, buf
      ensures Valid() && Now() == OnData(old(Now()), data)
    {
      if !open { return; }
      hide HasEnd, Parse, First;
      Append(data);
      if !done {
        var end := Ends();
        if !end { return; }
        done := true;
        ParseText();
      }
    }

    /** Whether the header is complete. */
    method Ends() returns (end: bool)
      requires Valid()
      ensures end == HasEnd(buf[..len])
    {
      hide At;
      var r := MemFind(CrLfCrLf);
      if r < 0 { r := MemFind(LfLf); }
      end := r >= 0;
    }

    /** Parse the request line and dispatch the request, or close the connection. */
    method ParseText()
      requires Valid()
      modifies this`open, this`dispatched
      ensures open == (old(open) && Parse(buf[..len]).Line?)
      ensures dispatched == old(dispatched) + if Parse(buf[..len]).Line? then [Parse(buf[..len]).request] else []
    {
      hide Scan, FindMark, First, Parse, Words, Cut;
      ghost var b := buf[..len];
      var i := StrChr(0, Space);
      ParseFirst(b, i);
      if buf[i] != Space {
        open := false;
        return;
      }
      var j := StrChr(i + 1, Space);
      var q := MemChr(i + 1, j);
      ParseIs(b, i, j, q);
      var verb := Field(0, Least(i % 256, MethodRoom));
      var path := Field(i + 1, Least(q - i - 1, PathRoom));
      var query := [];
      if q < j { query := Field(q + 1, Least(j - q - 1, QueryRoom)); }
      dispatched := dispatched + [Request(verb, path, query)];
    }

    /** memcpy of a field out of the text */
    method Field(at: nat, n: nat) returns (s: seq<Byte>)
      requires Valid() && at + n <= len
      ensures s == Cut(buf[..len], at, n)
    {
      s := buf[at..at + n];
    }
  }

  /** The request line by the places of its words in the text. */
  lemma ParseIs(b: seq<Byte>, i: nat, j: nat, q: nat)
    requires i == Scan(b, 0, Space) < |b| && b[i] == Space && j == Scan(b, i + 1, Space) && i + 1 <= q <= j && q - i - 1 == FindMark(b[i + 1..j])
    ensures Parse(b) == Line(Request(Cut(b, 0, Least(i % 256, MethodRoom)), Cut(b, i + 1, Least(q - i - 1, PathRoom)),
                                     if q < j then Cut(b, q + 1, Least(j - q - 1, QueryRoom)) else []))
  {
    hide Scan, FindMark, First, Cut, Least;
    var u := i + 1;
    Inside(b, i, u, q, j);
    FirstCut(b, 0, i, Least(i % 256, MethodRoom));
    FirstLeast(i);
    FirstCut(b, u, q, PathRoom);
    if q < j { FirstCut(b, q + 1, j, QueryRoom); }
  }

  lemma FirstLeast(i: nat)
    ensures Least(i, Least(i % 256, MethodRoom)) == Least(i % 256, MethodRoom) == Least(Least(i % 256, MethodRoom), i)
  {
  }

  lemma Inside(b: seq<Byte>, i: nat, u: nat, q: nat, j: nat)
    requires i <= u <= q <= j <= |b|
    ensures b[u..j][..q - u] == b[u..q] && (q < j ==> b[u..j][q - u + 1..] == b[q + 1..j]) && b[0..i] == b[..i]
  {
  }

  function Cut(b: seq<Byte>, at: nat, n: nat): seq<Byte>
    requires at + n <= |b|
  {
    b[at..at + n]
  }

  lemma FirstCut(b: seq<Byte>, at: nat, end: nat, n: nat)
    requires at <= end <= |b|
    ensures First(b[at..end], n) == Cut(b, at, Least(end - at, n)) == Cut(b, at, Least(n, end - at))
  {
  }
}
