/** Shaping a request before it is sent: the key path, the parameters of a
    write, and the method check and form body of `_doRequest`. */
module Requests {
  import opened Wrappers
  import opened Text
  import opened PhpArray
  import opened UrlEncoding
  import opened Errors

  const KeysPrefix: string := "/v2/keys/"

  /** `_urlPathForKey`: the keys prefix followed by the key with every leading
      slash removed. */
  function UrlPathForKey(key: string): (p: string)
    ensures |KeysPrefix| <= |p| && p[..|KeysPrefix|] == KeysPrefix
    ensures |p| == |KeysPrefix| || p[|KeysPrefix|] != '/'
    ensures |p| - |KeysPrefix| <= |key| && p[|KeysPrefix|..] == key[|key| - (|p| - |KeysPrefix|)..]
    ensures forall i :: 0 <= i < |key| - (|p| - |KeysPrefix|) ==> key[i] == '/'
  {
    var rest := TrimLeft(key, Slashes);
    assert (KeysPrefix + rest)[|KeysPrefix|..] == rest;
    KeysPrefix + rest
  }

  /** A leading slash makes no difference to the path. */
  lemma UrlPathLeadingSlash(key: string)
    ensures UrlPathForKey("/" + key) == UrlPathForKey(key)
  {
    assert "/" + key == ['/'] + key;
    TrimLeftCons('/', key, Slashes);
  }

  /** A key that does not start with a slash is appended as it is. */
  lemma UrlPathPlainKey(key: string)
    requires |key| == 0 || key[0] != '/'
    ensures UrlPathForKey(key) == KeysPrefix + key
  {
  }

  /** The `prevExist` condition of a write: absent for `set`, `"true"` for
      `update`, `"false"` for `mk`. */
  datatype PrevExist = Unconditional | MustExist | MustNotExist

  /** The wire value of the condition, None when the parameter is not sent. */
  function PrevExistWire(p: PrevExist): Option<string> {
    match p
    case Unconditional => None
    case MustExist => Some("true")
    case MustNotExist => Some("false")
  }

  type Params = PhpArray.Array<string>

  /** `_makeParams`: a positive ttl is set, anything else removes `ttl`;
      every other parameter stays as it was. */
  function MakeParams(params: Params, ttl: int): (r: Params)
    ensures Get(r, "ttl") == if ttl > 0 then Some(NatToString(ttl)) else None
    ensures forall k :: k != "ttl" ==> Get(r, k) == Get(params, k)
    ensures UniqueKeys(params) ==> UniqueKeys(r)
    ensures ttl > 0 ==> Keys(r) == if "ttl" in Keys(params) then Keys(params) else Keys(params) + ["ttl"]
    ensures "ttl" !in Keys(params) ==> r == if ttl > 0 then params + [("ttl", NatToString(ttl))] else params
    ensures ttl <= 0 ==> Keys(r) == Without(Keys(params), "ttl")
    ensures ttl <= 0 && UniqueKeys(params) && "ttl" in Keys(params) ==>
      r == params[..KeyIndex(params, "ttl")] + params[KeyIndex(params, "ttl") + 1..]
  {
    if ttl > 0 then
      var t := NatToString(ttl);
      PutGet(params, "ttl", t);
      PutKeys(params, "ttl", t);
      assert UniqueKeys(params) ==> UniqueKeys(Put(params, "ttl", t)) by {
        if UniqueKeys(params) {
          PutUnique(params, "ttl", t);
        }
      }
      Put(params, "ttl", t)
    else
      KeyOrderAfterUnset(params, "ttl");
      assert UniqueKeys(params) && "ttl" in Keys(params) ==>
        Unset(params, "ttl") == params[..KeyIndex(params, "ttl")] + params[KeyIndex(params, "ttl") + 1..] by {
        if UniqueKeys(params) && "ttl" in Keys(params) {
          CutByUnset(params, "ttl");
        }
      }
      if Get(params, "ttl").Some? then Unset(params, "ttl")
      else params
  }

  /** The parameters before `_makeParams`: `value`, then `prevExist` when
      the write is conditional. */
  function ConditionParams(value: string, prevExist: PrevExist): (r: Params)
    ensures UniqueKeys(r)
    ensures Keys(r) == ["value"] + (if prevExist.Unconditional? then [] else ["prevExist"])
    ensures Get(r, "value") == Some(value)
    ensures Get(r, "prevExist") == PrevExistWire(prevExist)
  {
    var base: Params := [("value", value)];
    PutGet(base, "prevExist", PrevExistWire(prevExist).GetOr(""));
    PutKeys(base, "prevExist", PrevExistWire(prevExist).GetOr(""));
    PutUnique(base, "prevExist", PrevExistWire(prevExist).GetOr(""));
    match PrevExistWire(prevExist)
    case Some(w) => Put(base, "prevExist", w)
    case None => base
  }

  /** `_doKeyWrite`'s parameters: `value`, then `prevExist` when the write is
      conditional, then `ttl` when it is positive; nothing else. */
  function KeyWriteParams(value: string, ttl: int, prevExist: PrevExist): (r: Params)
    ensures UniqueKeys(r)
    ensures Keys(r) == ["value"] + (if prevExist.Unconditional? then [] else ["prevExist"]) + (if ttl > 0 then ["ttl"] else [])
    ensures Get(r, "value") == Some(value)
    ensures Get(r, "prevExist") == PrevExistWire(prevExist)
    ensures Get(r, "ttl").Some? <==> ttl > 0
    ensures ttl > 0 ==> Get(r, "ttl") == Some(NatToString(ttl))
  {
    MakeParams(ConditionParams(value, prevExist), ttl)
  }

  /** A request ready for the transport: the normalised method and, for a
      PUT or DELETE with parameters, the form body. */
  datatype Prepared = Prepared(verb: string, body: Option<string>)

  /** `strtoupper(trim(method))`: the method without white space at either
      end and without ASCII lower-case letters, each character the trimmed
      method's own or, for a lower-case letter, its capital. */
  function NormalizeMethod(verb: string): (m: string)
    ensures |m| == |Trim(verb)|
    ensures forall i :: 0 <= i < |m| ==> !('a' <= m[i] <= 'z')
    ensures forall i :: 0 <= i < |m| ==> m[i] == Trim(verb)[i] || ('a' <= Trim(verb)[i] <= 'z' && m[i] as int == Trim(verb)[i] as int - 32)
    ensures |m| > 0 ==> !IsSpace(m[0]) && !IsSpace(m[|m| - 1])
  {
    Upper(Trim(verb))
  }

  /** The method and body part of `_doRequest`. Only GET, PUT and DELETE are
      accepted; a body is built only for PUT and DELETE with parameters, and
      it carries every parameter, in order, recoverably. */
  function PrepareRequest(verb: string, params: Params): (r: Result<Prepared, Error>)
    ensures r.Success? <==> NormalizeMethod(verb) in ["GET", "PUT", "DELETE"]
    ensures r.Failure? ==> r.error == Generic("Invalid HTTP method: " + NormalizeMethod(verb))
    ensures r.Success? ==> r.value.verb == NormalizeMethod(verb)
    ensures r.Success? ==> (r.value.body.Some? <==> r.value.verb != "GET" && |params| > 0)
    ensures r.Success? && r.value.body.Some? ==> r.value.body.value == EncodeForm(params)
    ensures r.Success? && r.value.body.Some? ==> ParseForm(r.value.body.value) == Some(Utf8Pairs(params))
  {
    var m := NormalizeMethod(verb);
    if m == "PUT" || m == "DELETE" then
      if |params| > 0 then
        Success(Prepared(m, Some(EncodeForm(params))))
      else Success(Prepared(m, None))
    else if m != "GET" then Failure(Generic("Invalid HTTP method: " + m))
    else Success(Prepared(m, None))
  }
}
