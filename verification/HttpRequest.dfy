/** The request object of http_request.c, whose callbacks join the fragments that the
    parser reports into a url, header strings and a body. */
module HttpRequest {
  import opened Bytes
  import opened HttpParser

  /** What a request holds. `headers` alternates names and values; a missing entry is a
      null pointer in the source. */
  datatype Contents = Contents(url: Option<seq<Byte>>, headers: seq<Option<seq<Byte>>>, index: nat,
                               data: seq<Byte>, complete: bool, verb: Option<Method>)

  const Empty := Contents(None, [], 0, [], false, None)

  function Text(s: Option<seq<Byte>>): seq<Byte> {
    if s.Some? then s.value else []
  }

  /** strncat */
  function AddText(s: Option<seq<Byte>>, at: seq<Byte>): Option<seq<Byte>> {
    Some(Text(s) + CString(at))
  }

  function UrlAdded(r: Contents, at: seq<Byte>): Contents {
    r.(url := AddText(r.url, at))
  }

  function FieldAdded(r: Contents, at: seq<Byte>): Contents {
    var i := if r.index % 2 == 1 then r.index + 1 else r.index;
    var hs := if i == |r.headers| then r.headers + [None, None] else r.headers;
    if i < |hs| then r.(index := i, headers := hs[i := AddText(hs[i], at)]) else r
  }

  function ValueAdded(r: Contents, at: seq<Byte>): Contents {
    var i := if r.index % 2 == 0 then r.index + 1 else r.index;
    if i < |r.headers| then r.(index := i, headers := r.headers[i := AddText(r.headers[i], at)]) else r
  }

  function BodyAdded(r: Contents, at: seq<Byte>): Contents {
    r.(data := r.data + at)
  }

  function Completed(r: Contents, m: Method): Contents {
    r.(complete := true, verb := Some(m))
  }

  /** The effect of one data callback. */
  function Deliver(r: Contents, k: Kind, at: seq<Byte>): Contents {
    match k
    case UrlData => UrlAdded(r, at)
    case FieldData => FieldAdded(r, at)
    case ValueData => ValueAdded(r, at)
    case BodyData => BodyAdded(r, at)
  }

  /** The header list grows by pairs, and the index stays inside it. */
  predicate Paired(r: Contents) {
    |r.headers| % 2 == 0 && r.index <= |r.headers|
  }

  /** What a callback needs before it may write into the header list. */
  predicate Ready(r: Contents, k: Kind) {
    Paired(r) && (k == ValueData ==> r.index < |r.headers|)
  }

  lemma AddTextTwice(s: Option<seq<Byte>>, a: seq<Byte>, b: seq<Byte>)
    requires NoNul(a)
    ensures AddText(AddText(s, a), b) == AddText(s, a + b)
  {
    CStringOf(a);
    CStringAppend(a, b);
    assert (Text(s) + a) + CString(b) == Text(s) + (a + CString(b));
  }

  /** Where on_header_field writes. */
  function FieldIndex(r: Contents): nat {
    if r.index % 2 == 1 then r.index + 1 else r.index
  }

  lemma FieldTwice(r: Contents, a: seq<Byte>, b: seq<Byte>)
    requires Paired(r) && NoNul(a)
    ensures FieldAdded(FieldAdded(r, a), b) == FieldAdded(r, a + b)
  {
    var i := FieldIndex(r);
    var hs := if i == |r.headers| then r.headers + [None, None] else r.headers;
    var once, whole := AddText(hs[i], a), AddText(hs[i], a + b);
    AddTextTwice(hs[i], a, b);
    assert FieldAdded(r, a) == r.(index := i, headers := hs[i := once]);
    assert i % 2 == 0 && i < |hs|;
    assert FieldAdded(FieldAdded(r, a), b) == r.(index := i, headers := hs[i := once][i := whole]);
    assert hs[i := once][i := whole] == hs[i := whole];
  }

  lemma ValueTwice(r: Contents, a: seq<Byte>, b: seq<Byte>)
    requires Ready(r, ValueData) && NoNul(a)
    ensures ValueAdded(ValueAdded(r, a), b) == ValueAdded(r, a + b)
  {
    var i := if r.index % 2 == 0 then r.index + 1 else r.index;
    var hs := r.headers;
    var once, whole := AddText(hs[i], a), AddText(hs[i], a + b);
    AddTextTwice(hs[i], a, b);
    assert ValueAdded(r, a) == r.(index := i, headers := hs[i := once]);
    assert ValueAdded(ValueAdded(r, a), b) == r.(index := i, headers := hs[i := once][i := whole]);
    assert hs[i := once][i := whole] == hs[i := whole];
  }

  /** Two fragments delivered one after the other are one fragment. */
  lemma DeliverTwice(r: Contents, k: Kind, a: seq<Byte>, b: seq<Byte>)
    requires Ready(r, k) && (k == BodyData || NoNul(a))
    ensures Deliver(Deliver(r, k, a), k, b) == Deliver(r, k, a + b)
  {
    match k
    case UrlData => AddTextTwice(r.url, a, b);
    case FieldData => FieldTwice(r, a, b);
    case ValueData => ValueTwice(r, a, b);
    case BodyData => assert (r.data + a) + b == r.data + (a + b);
  }

  /** Text behind a zero byte is lost when it comes in the same fragment, and kept when it comes in the next. */
  lemma {:induction false} CStringSplit(a: seq<Byte>, b: seq<Byte>)
    ensures CString(a + b) == if NoNul(a) then CString(a) + CString(b) else CString(a)
  {
    if a == [] {
      assert a + b == b;
    } else {
      assert (a + b)[1..] == a[1..] + b && (a + b)[0] == a[0];
      CStringSplit(a[1..], b);
      if a[0] != 0 {
        NoNulTail(a);
      }
    }
  }

  lemma NoNulTail(a: seq<Byte>)
    requires a != [] && a[0] != 0
    ensures NoNul(a) <==> NoNul(a[1..])
  {
    if NoNul(a[1..]) {
      forall i | 0 <= i < |a| ensures a[i] != 0 {
        assert i > 0 ==> a[i] == a[1..][i - 1];
      }
    }
  }

  lemma SameAppended(s: seq<Byte>, a: seq<Byte>, b: seq<Byte>)
    ensures (s + a) + b == s + a <==> b == []
    ensures (s + a) + b == s + (a + b)
  {
    if (s + a) + b == s + a {
      assert |b| == 0;
    }
  }

  lemma AddTextExactly(s: Option<seq<Byte>>, a: seq<Byte>, b: seq<Byte>)
    ensures AddText(AddText(s, a), b) == AddText(s, a + b) <==> NoNul(a) || CString(b) == []
  {
    CStringSplit(a, b);
    SameAppended(Text(s), CString(a), CString(b));
  }

  /** When two fragments of a header value may be delivered as one: exactly when no text comes behind a zero byte. */
  lemma ValueTwiceExactly(r: Contents, a: seq<Byte>, b: seq<Byte>)
    requires Ready(r, ValueData)
    ensures ValueAdded(ValueAdded(r, a), b) == ValueAdded(r, a + b) <==> NoNul(a) || CString(b) == []
  {
    var i := if r.index % 2 == 0 then r.index + 1 else r.index;
    var hs := r.headers;
    var once, twice, whole := AddText(hs[i], a), AddText(AddText(hs[i], a), b), AddText(hs[i], a + b);
    AddTextExactly(hs[i], a, b);
    assert ValueAdded(r, a) == r.(index := i, headers := hs[i := once]);
    assert ValueAdded(ValueAdded(r, a), b) == r.(index := i, headers := hs[i := once][i := twice]);
    UpdatedSame(hs, i, once, twice, whole);
  }

  lemma UpdatedSame<T>(s: seq<T>, i: nat, x: T, y: T, z: T)
    requires i < |s|
    ensures s[i := x][i := y] == s[i := z] <==> y == z
  {
    assert s[i := x][i := y] == s[i := y] && s[i := y][i] == y && s[i := z][i] == z;
  }

  /** After a delivery, an empty fragment of the same kind changes nothing. */
  predicate Settled(r: Contents, k: Kind) {
    Deliver(r, k, []) == r
  }

  lemma AddNothing(s: Option<seq<Byte>>)
    requires s.Some?
    ensures AddText(s, []) == s
  {
    assert CString([]) == [];
    assert Text(s) + [] == s.value;
  }

  lemma FieldSettles(r: Contents, a: seq<Byte>)
    requires Paired(r)
    ensures var t := FieldAdded(r, a); FieldAdded(t, []) == t && Paired(t) && t.index < |t.headers|
  {
    var t := FieldAdded(r, a);
    AddNothing(t.headers[t.index]);
    assert t.headers[t.index := t.headers[t.index]] == t.headers;
  }

  lemma ValueSettles(r: Contents, a: seq<Byte>)
    requires Ready(r, ValueData)
    ensures var t := ValueAdded(r, a); ValueAdded(t, []) == t && Paired(t) && t.index < |t.headers|
  {
    var t := ValueAdded(r, a);
    AddNothing(t.headers[t.index]);
    assert t.headers[t.index := t.headers[t.index]] == t.headers;
  }

  lemma DeliverSettles(r: Contents, k: Kind, a: seq<Byte>)
    requires Ready(r, k)
    ensures Settled(Deliver(r, k, a), k) && Paired(Deliver(r, k, a))
    ensures r.index < |r.headers| || k == FieldData ==> Deliver(r, k, a).index < |Deliver(r, k, a).headers|
  {
    match k
    case UrlData => AddNothing(UrlAdded(r, a).url);
    case FieldData => FieldSettles(r, a);
    case ValueData => ValueSettles(r, a);
    case BodyData => assert BodyAdded(r, a).data + [] == BodyAdded(r, a).data;
  }

  class Request {
    var url: Option<seq<Byte>>
    var headers: seq<Option<seq<Byte>>>
    var index: nat
    var data: seq<Byte>
    var complete: bool
    var verb: Option<Method>

    /** http_request_init */
    constructor ()
      ensures Held() == Empty
    {
      url, headers, index, data, complete, verb := None, [], 0, [], false, None;
    }

    ghost function Held(): Contents
      reads this
    {
      Contents(url, headers, index, data, complete, verb)
    }

    /** on_url */
    method OnUrl(at: seq<Byte>)
      modifies this
      ensures Held() == UrlAdded(old(Held()), at)
    {
      url := AddText(url, at);
    }

    /** on_header_field */
    method OnHeaderField(at: seq<Byte>)
      requires Paired(Held())
      modifies this
      ensures Held() == FieldAdded(old(Held()), at)
    {
      if index % 2 == 1 {
        index := index + 1;
      }
      if index == |headers| {
        headers := headers + [None, None];
      }
      headers := headers[index := AddText(headers[index], at)];
    }

    /** on_header_value */
    method OnHeaderValue(at: seq<Byte>)
      requires Ready(Held(), ValueData)
      modifies this
      ensures Held() == ValueAdded(old(Held()), at)
    {
      if index % 2 == 0 {
        index := index + 1;
      }
      headers := headers[index := AddText(headers[index], at)];
    }

    /** on_body */
    method OnBody(at: seq<Byte>)
      modifies this
      ensures Held() == BodyAdded(old(Held()), at)
    {
      data := data + at;
    }

    /** on_message_complete */
    method OnMessageComplete(m: Method)
      modifies this
      ensures Held() == Completed(old(Held()), m)
    {
      complete, verb := true, Some(m);
    }

    /** The data callback for a kind. */
    method On(k: Kind, at: seq<Byte>)
      requires Ready(Held(), k)
      modifies this
      ensures Held() == Deliver(old(Held()), k, at)
    {
      match k
      case UrlData => OnUrl(at);
      case FieldData => OnHeaderField(at);
      case ValueData => OnHeaderValue(at);
      case BodyData => OnBody(at);
    }
  }
}
