// The context a node handler works on: the response being built (code,
// header, body), the request it answers and a session of values keyed by
// bytes.
module NodeContext {
  import opened Wrappers
  import opened Bytes
  import opened Ordering
  import opened Buckets
  import opened Streams
  import opened AppCacheBucket
  import opened NodeCodec

  /** A value stored behind an interface{}: a handler's own value, a boxed *SessionItem, or nil. */
  datatype Any = Opaque(id: nat) | ItemRef(key: bytes, value: Any) | Nil

  datatype SessionItem = SessionItem(key: bytes, value: Any)

  function SessionKeyOf(item: SessionItem): bytes {
    item.key
  }

  /** The value held under each session key. */
  ghost function SessionValues(c: map<bytes, SessionItem>): map<bytes, Any> {
    map k | k in c :: c[k].value
  }

  lemma SessionValuesUpdate(c: map<bytes, SessionItem>, k: bytes, item: SessionItem)
    requires item.key == k
    ensures SessionValues(c[k := item]) == SessionValues(c)[k := item.value]
  {
  }

  lemma SessionValuesRemove(c: map<bytes, SessionItem>, k: bytes)
    ensures SessionValues(c - {k}) == SessionValues(c) - {k}
  {
  }

  lemma SessionRemoveAbsent(c: map<bytes, SessionItem>, k: bytes)
    requires k !in c
    ensures c - {k} == c
  {
  }

  ghost predicate KeyedBySessionKey(key: SessionItem -> bytes) {
    forall it :: key(it) == it.key
  }

  lemma SessionContentsKey(items: seq<SessionItem>, key: SessionItem -> bytes, k: bytes)
    requires DistinctKeys(items, key) && KeyedBySessionKey(key) && k in ToMap(items, key)
    ensures key(ToMap(items, key)[k]) == k
  {
    var i := ToMapHas(items, key, k);
  }

  class Context {
    var code: int
    var header: Header
    var body: Option<Stream>
    var request: Request
    var session: SimpleBucket<bytes, SessionItem>

    ghost predicate Valid()
      reads this, header, header.bucket, session
    {
      header.Valid() && SessionValid(session)
    }

    /** The value stored under each session key. */
    ghost function Sessions(): map<bytes, Any>
      reads this, session
      requires session.Valid()
    {
      SessionValues(session.Contents())
    }

    /**
     * InitContext on a zero Context: code -1, an empty session, a fresh
     * request after InitRequest and an empty response header.
     */
    constructor ()
      ensures Valid() && code == -1 && body == None
      ensures header.Entries() == map[] && Sessions() == map[]
      ensures request.name == [] && request.body == None && request.header.Valid() && request.header.Entries() == map[]
      ensures fresh(header) && fresh(header.bucket) && fresh(session) && fresh(request) && fresh(request.header)
    {
      code := -1;
      body := None;
      CompareTotal();
      session := new SimpleBucket<bytes, SessionItem>(SessionKeyOf, Compare);
      request := new Request();
      header := new Header();
    }

    /** SetHeader: a nil value deletes the key, any other value is set. */
    method SetHeader(key: bytes, value: Option<bytes>)
      requires Valid()
      modifies header.bucket
      ensures Valid()
      ensures value.None? ==> header.Entries() == old(header.Entries()) - {key}
      ensures value.Some? ==> header.Entries() == old(header.Entries())[key := value.value]
    {
      if value.None? {
        header.Del(key);
        return;
      }
      header.Set(key, value.value);
    }

    /** Session as intended: the value stored under key, or nil and false. */
    method Session(key: bytes) returns (value: Any, ok: bool)
      requires Valid()
      ensures ok <==> key in Sessions()
      ensures value == if ok then Sessions()[key] else Nil
    {
      var item := session.Search(key);
      if item.None? {
        return Nil, false;
      }
      return item.value.value, true;
    }

    /**
     * Session as written: the bucket's Search result is returned as it is,
     * so the caller gets the boxed *SessionItem rather than the value stored
     * in it, and a typed nil pointer when the key is absent.
     */
    method SessionAsWritten(key: bytes) returns (value: Any, ok: bool)
      requires Valid()
      ensures ok <==> key in Sessions()
      ensures ok ==> value == ItemRef(key, Sessions()[key]) && value != Sessions()[key]
      ensures !ok ==> value == ItemRef([], Nil)
    {
      var item := session.Search(key);
      if item.None? {
        return ItemRef([], Nil), false;
      }
      SessionContentsKey(session.items, session.key, key);
      ItemIsNotItsValue(item.value);
      return ItemRef(item.value.key, item.value.value), true;
    }

    /** Set: the value replaces whatever the session held under key. */
    method Set(key: bytes, value: Any)
      requires Valid()
      modifies session
      ensures Valid() && Sessions() == old(Sessions())[key := value]
    {
      SessionValuesUpdate(session.Contents(), key, SessionItem(key, value));
      var _ := session.Swap(SessionItem(key, value));
    }

    /** Del: the key leaves the session; an absent key changes nothing. */
    method Del(key: bytes)
      requires Valid()
      modifies session
      ensures Valid() && Sessions() == old(Sessions()) - {key}
    {
      DeleteSession(session, key);
    }

    /** Respond: code 0 and the given body. */
    method Respond(newBody: Stream)
      modifies this
      ensures code == 0 && body == Some(newBody)
      ensures header == old(header) && request == old(request) && session == old(session)
    {
      body := Some(newBody);
      code := 0;
    }

    /** ThrowError: the given code and a body that reads the error's text. */
    method ThrowError(newCode: int, errText: bytes)
      modifies this
      ensures code == newCode && body.Some? && Flatten(body.value) == errText
      ensures header == old(header) && request == old(request) && session == old(session)
    {
      code := newCode;
      body := Some(Of(errText));
    }
  }

  /** A session bucket: sorted by bytes.Compare on the item keys. */
  ghost predicate SessionValid(session: SimpleBucket<bytes, SessionItem>)
    reads session
  {
    session.Valid() && KeyedBySessionKey(session.key) && (forall a, b :: session.cmp(a, b) == Compare(a, b))
  }

  /** The body of Context.Del, on the session bucket alone. */
  method DeleteSession(session: SimpleBucket<bytes, SessionItem>, key: bytes)
    requires SessionValid(session)
    modifies session
    ensures SessionValid(session)
    ensures SessionValues(session.Contents()) == old(SessionValues(session.Contents())) - {key}
  {
    SessionValuesRemove(session.Contents(), key);
    var item := session.Search(key);
    if item.Some? {
      SessionContentsKey(session.items, session.key, key);
      session.Delete(item.value);
    } else {
      SessionRemoveAbsent(session.Contents(), key);
    }
  }

  /** A boxed item is never the value it holds. */
  lemma ItemIsNotItsValue(item: SessionItem)
    ensures ItemRef(item.key, item.value) != item.value
  {
  }
}
