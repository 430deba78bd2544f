/** The host name in a DNS query (dns_send in src/lib/liblwip/core/dns.c) against section 3.1 of
    RFC 1035: a name is a sequence of labels, each a length and that many bytes, ended by a zero
    length. */
module DnsName {
  import opened Bytes

  const Dot: Byte := 46

  /** The labels of a host name. */
  datatype Labels = One(head: seq<Byte>) | More(head: seq<Byte>, rest: Labels)

  /** The host name with these labels. */
  function Join(ls: Labels): seq<Byte> { if ls.One? then ls.head else ls.head + ([Dot] + Join(ls.rest)) }

  ghost predicate NoDots(ls: Labels) { Dot !in ls.head && (ls.More? ==> NoDots(ls.rest)) }

  /** The labels between the dots of a name. */
  function Split(name: seq<Byte>): (ls: Labels)
    ensures Join(ls) == name
  {
    if name == [] then One([])
    else if name[0] == Dot then More([], Split(name[1..]))
    else
      var t := Split(name[1..]);
      assert [name[0]] + name[1..] == name;
      Longer(name[0], t)
  }

  /** One more byte in front of the first label. */
  function Longer(b: Byte, t: Labels): (ls: Labels)
    ensures Join(ls) == [b] + Join(t)
  {
    if t.One? then One([b] + t.head) else More([b] + t.head, t.rest)
  }

  lemma {:induction false} SplitNoDots(name: seq<Byte>)
    ensures NoDots(Split(name))
  {
    if name != [] { SplitNoDots(name[1..]); }
  }

  /** What dns_send writes. */
  function Encode(ls: Labels): seq<Byte> {
    [|ls.head| % 256] + (ls.head + (if ls.One? then [0] else Encode(ls.rest)))
  }

  datatype Option = None | Some(labels: Labels)

  /** The labels of the encoded name at the start of `s`, by the RFC: 1 to 63 bytes each. `None` if
      `s` does not start with such a name. */
  function Decode(s: seq<Byte>): Option
    decreases |s|
  {
    if |s| == 0 || s[0] == 0 || s[0] > 63 || |s| < s[0] + 2 then None
    else
      var part, rest := s[1..s[0] + 1], s[s[0] + 1..];
      if rest[0] == 0 then Some(One(part))
      else match Decode(rest)
           case None => None
           case Some(r) => Some(More(part, r))
  }

  /** Every label has between 1 and 63 bytes. */
  predicate LabelsOk(ls: Labels) { 1 <= |ls.head| <= 63 && (ls.More? ==> LabelsOk(ls.rest)) }

  /** No label has more bytes than an u8_t counts. */
  predicate Counted(ls: Labels) { |ls.head| < 256 && (ls.More? ==> Counted(ls.rest)) }

  lemma {:induction false} EncodeLength(ls: Labels)
    ensures |Encode(ls)| == |Join(ls)| + 2
  {
    if ls.More? { EncodeLength(ls.rest); }
  }

  lemma {:induction false} ShortCounted(ls: Labels)
    requires |Join(ls)| < 256
    ensures Counted(ls)
  {
    if ls.More? { ShortCounted(ls.rest); }
  }

  /** A query carries the name it was made for exactly if all labels have a length the RFC allows;
      dns_send does not look at that. */
  lemma {:induction false} RoundTrip(ls: Labels)
    requires Counted(ls)
    ensures Decode(Encode(ls)) == Some(ls) <==> LabelsOk(ls)
  {
    hide Decode, Encode;
    if ls.One? {
      EncodeIs(ls);
      DecodeIs(|ls.head|, ls.head, [0]);
    } else {
      EncodeIs(ls);
      EncodeFirst(ls.rest);
      RoundTrip(ls.rest);
      DecodeIs(|ls.head|, ls.head, Encode(ls.rest));
    }
  }

  lemma DecodeIs(n: Byte, head: seq<Byte>, tail: seq<Byte>)
    requires n == |head| && |tail| > 0
    ensures Decode([n] + (head + tail)) ==
      if !(1 <= n <= 63) then None
      else if tail[0] == 0 then Some(One(head))
      else match Decode(tail)
           case None => None
           case Some(r) => Some(More(head, r))
  {
    Cut(n, head, tail);
  }

  lemma Cut(n: Byte, head: seq<Byte>, tail: seq<Byte>)
    requires n == |head|
    ensures var e := [n] + (head + tail); e[1..n + 1] == head && e[n + 1..] == tail
  {
  }

  /** The theorem for host names: they are shorter than 256 bytes (DNS_MAX_NAME_LENGTH). */
  lemma NameRoundTrip(name: seq<Byte>)
    requires |name| < 256
    ensures Decode(Encode(Split(name))) == Some(Split(name)) <==> LabelsOk(Split(name))
    ensures Decode(Encode(Split(name))) == Some(Split(name)) ==> Join(Decode(Encode(Split(name))).labels) == name
  {
    ShortCounted(Split(name));
    RoundTrip(Split(name));
  }

  /** The labels of a name with a dot behind it. */
  function WithRoot(ls: Labels): Labels { More(ls.head, if ls.One? then One([]) else WithRoot(ls.rest)) }

  lemma {:induction false} SplitDot(name: seq<Byte>)
    ensures Split(name + [Dot]) == WithRoot(Split(name))
  {
    if name != [] {
      assert (name + [Dot])[1..] == name[1..] + [Dot];
      SplitDot(name[1..]);
    } else {
      assert Split([Dot][1..]) == One([]);
    }
  }

  lemma {:induction false} EncodeRoot(ls: Labels)
    requires LabelsOk(ls)
    ensures Encode(WithRoot(ls)) == Encode(ls) + [0]
  {
    if ls.One? {
      assert Encode(One([])) == [0, 0];
    } else {
      EncodeRoot(ls.rest);
    }
  }

  /** A right encoding is decoded whatever follows it. */
  lemma {:induction false} DecodePrefix(ls: Labels, behind: seq<Byte>)
    requires LabelsOk(ls)
    ensures Decode(Encode(ls) + behind) == Some(ls)
  {
    hide Decode, Encode;
    EncodeIs(ls);
    var tail := if ls.One? then [0] else Encode(ls.rest);
    assert Encode(ls) + behind == [|ls.head|] + (ls.head + (tail + behind));
    if ls.More? {
      EncodeFirst(ls.rest);
      DecodePrefix(ls.rest, behind);
    }
    DecodeIs(|ls.head|, ls.head, tail + behind);
  }

  /** A name that ends with a dot breaks the round trip whatever stands before the dot: the zero
      length of its empty last label is read as the end, so the query asks for the name without
      the dot, and one byte too many stands before its type. */
  lemma TrailingDot(name: seq<Byte>)
    requires LabelsOk(Split(name))
    ensures Encode(Split(name + [Dot])) == Encode(Split(name)) + [0]
    ensures Decode(Encode(Split(name + [Dot]))) == Some(Split(name)) != Some(Split(name + [Dot]))
  {
    hide Encode, Decode;
    SplitDot(name);
    EncodeRoot(Split(name));
    DecodePrefix(Split(name), [0]);
    assert Join(Split(name)) == name && Join(Split(name + [Dot])) == name + [Dot];
  }

  /** The query that dns_send makes for the name "a." reads as a query for "a". */
  method QueryWithDot() returns (q: Query, idx: nat)
    ensures idx == 4 && q.buf.Length == 4 && q.buf[..] == [1, 97, 0, 0] && Decode(q.buf[..]) == Some(One([97]))
  {
    var name: seq<Byte> := [97, Dot];
    q := new Query(4);
    idx := q.PutName(name);
    assert q.buf[..idx] == q.buf[..];
    assert name == [97] + [Dot];
    assert Split([97]) == One([97]) by { assert [97][1..] == []; }
    TrailingDot([97]);
  }

  class Query {
    /** the pbuf of the query, from the name on */
    var buf: array<Byte>

    constructor (size: nat)
      ensures buf.Length == size && fresh(buf)
    {
      buf := new Byte[size];
    }

    /** The loop of dns_send: write the labels of `name` at the start of the buffer. The room that
        dns_send asks for, two bytes more than the name has, is exactly used. */
    method PutName(name: seq<Byte>) returns (idx: nat)
      requires |name| < 256 && buf.Length >= |name| + 2
      modifies buf
      ensures idx == |name| + 2 && buf[..idx] == Encode(Split(name)) && buf[idx..] == old(buf[idx..])
    {
      hide Encode, Join, Split, NoDots;
      ghost var ls := Split(name);
      SplitNoDots(name);
      EncodeLength(ls);
      ghost var whole, size, done: seq<Byte> := Encode(ls), |name| + 2, [];
      var host := 0;
      var more := true;
      idx := 0;
      assert name[0..] == name && [] + whole == whole;
      while more
        invariant idx <= size && host <= |name| && buf[..idx] == done && |whole| == size
        invariant more ==> name[host..] == Join(ls) && NoDots(ls) && done + Encode(ls) == whole
        invariant !more ==> done + [0] == whole
        invariant buf[size..] == old(buf[size..])
        decreases more, |name| - host
      {
        FirstLabel(name, host, ls);
        var part := host;
        var n: nat;
        host, n := NextDot(name, part, |ls.head|);
        OneStep(done, ls, whole);
        PutLabel(idx, n, name[part..host], size);
        done := done + ([n] + ls.head);
        idx := idx + n + 1;
        more := host < |name|;
        if more {
          host := host + 1;
          ls := ls.rest;
        }
      }
      PutEnd(idx, size);
      idx := idx + 1;
    }

    /** The zero length at the end. */
    method PutEnd(at: nat, ghost size: nat)
      requires at + 1 == size <= buf.Length
      modifies buf
      ensures buf[..size] == old(buf[..at]) + [0] && buf[size..] == old(buf[size..])
    {
      ghost var done, behind := buf[..at], buf[size..];
      Put(at, [0]);
      assert buf[..size] == done + [0];
      assert buf[size..] == behind;
    }

    /** Count the bytes up to the next dot. */
    static method NextDot(name: seq<Byte>, part: nat, ghost k: nat) returns (host: nat, n: nat)
      requires part + k <= |name| && (forall j | part <= j < part + k :: name[j] != Dot) && (part + k < |name| ==> name[part + k] == Dot)
      ensures host == part + k && n == k
    {
      host, n := part, 0;
      while host < |name| && name[host] != Dot
        invariant part <= host <= part + k && n == host - part
        decreases |name| - host
      {
        host, n := host + 1, n + 1;
      }
    }

    /** One label: its length and its bytes. */
    method PutLabel(at: nat, n: nat, bytes: seq<Byte>, ghost size: nat)
      requires n == |bytes| < 256 && at + n + 1 <= size <= buf.Length
      modifies buf
      ensures buf[..at + n + 1] == old(buf[..at]) + ([n] + bytes) && buf[size..] == old(buf[size..])
    {
      ghost var done := buf[..at];
      ghost var behind := buf[size..];
      Put(at, [n]);
      assert buf[..at + 1] == done + [n];
      Put(at + 1, bytes);
      assert buf[..at + n + 1] == done + ([n] + bytes);
      assert buf[size..] == behind;
    }

    /** pbuf_put_at and pbuf_take_at */
    method Put(at: nat, data: seq<Byte>)
      requires at + |data| <= buf.Length
      modifies buf
      ensures forall i | 0 <= i < buf.Length :: buf[i] == if at <= i < at + |data| then data[i - at] else old(buf[i])
    {
      forall i | 0 <= i < |data| { buf[at + i] := data[i]; }
    }
  }

  /** Counting up to the next dot finds the end of the first label. */
  lemma FirstLabel(name: seq<Byte>, host: nat, ls: Labels)
    requires host <= |name| < 256 && name[host..] == Join(ls) && NoDots(ls)
    ensures host + |ls.head| <= |name| && name[host..host + |ls.head|] == ls.head && |ls.head| < 256
    ensures forall j | host <= j < host + |ls.head| :: name[j] != Dot
    ensures ls.One? ==> host + |ls.head| == |name|
    ensures ls.More? ==> host + |ls.head| < |name| && name[host + |ls.head|] == Dot && name[host + |ls.head| + 1..] == Join(ls.rest) && NoDots(ls.rest)
  {
    var s, k := name[host..], |ls.head|;
    assert s[..k] == ls.head;
    forall j | host <= j < host + k ensures name[j] == ls.head[j - host] != Dot { assert s[j - host] == name[j]; }
    if ls.More? {
      assert s[k] == Dot && s[k + 1..] == Join(ls.rest);
      assert name[host + k + 1..] == s[k + 1..];
    }
  }

  lemma EncodeIs(ls: Labels)
    requires |ls.head| < 256
    ensures Encode(ls) == [|ls.head|] + (ls.head + (if ls.One? then [0] else Encode(ls.rest)))
  {
  }

  lemma EncodeFirst(ls: Labels)
    requires |ls.head| < 256
    ensures |Encode(ls)| > 0 && Encode(ls)[0] == |ls.head|
  {
  }

  lemma OneStep(done: seq<Byte>, ls: Labels, whole: seq<Byte>)
    requires done + Encode(ls) == whole && |ls.head| < 256
    ensures (done + ([|ls.head|] + ls.head)) + (if ls.One? then [0] else Encode(ls.rest)) == whole
  {
    var t := if ls.One? then [0] else Encode(ls.rest);
    assert done + ([|ls.head|] + (ls.head + t)) == (done + ([|ls.head|] + ls.head)) + t;
  }
}
