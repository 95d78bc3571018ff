/** Signature version 1.0 of the Alibaba Cloud RPC API, as the moderation
    client builds it: the canonical parameter string, the string to sign,
    and the `Signature` parameter added afterwards. HMAC-SHA1 and Base64 are
    not interpreted: they are parameters of the signer. */
module Signer {
  import opened Wrappers
  import opened FormEncoding

  /** One entry of the request's parameter hash. */
  type Param = (Bytes, Bytes)

  /** Ruby's `String#<=>` on byte strings, as a "less than or equal":
      byte by byte, and a proper prefix first. */
  predicate LexLe(a: Bytes, b: Bytes)
    decreases |a|
  {
    |a| == 0 || (|b| > 0 && (a[0] < b[0] || (a[0] == b[0] && LexLe(a[1..], b[1..]))))
  }

  lemma {:induction false} LexLeTotal(a: Bytes, b: Bytes)
    ensures LexLe(a, b) || LexLe(b, a)
    decreases |a|
  {
    if |a| > 0 && |b| > 0 && a[0] == b[0] {
      LexLeTotal(a[1..], b[1..]);
    }
  }

  lemma {:induction false} LexLeTransitive(a: Bytes, b: Bytes, c: Bytes)
    requires LexLe(a, b) && LexLe(b, c)
    ensures LexLe(a, c)
    decreases |a|
  {
    if |a| > 0 && a[0] == b[0] && b[0] == c[0] {
      LexLeTransitive(a[1..], b[1..], c[1..]);
    }
  }

  lemma {:induction false} LexLeAntisymmetric(a: Bytes, b: Bytes)
    requires LexLe(a, b) && LexLe(b, a)
    ensures a == b
    decreases |a|
  {
    if |a| > 0 {
      LexLeAntisymmetric(a[1..], b[1..]);
      assert a == [a[0]] + a[1..] && b == [b[0]] + b[1..];
    }
  }

  predicate SortedByKey(ps: seq<Param>) {
    forall i, j :: 0 <= i < j < |ps| ==> LexLe(ps[i].0, ps[j].0)
  }

  lemma ConsSorted(p: Param, ps: seq<Param>)
    requires SortedByKey(ps) && forall q :: q in ps ==> LexLe(p.0, q.0)
    ensures SortedByKey([p] + ps)
  {
    var r := [p] + ps;
    forall i, j | 0 <= i < j < |r| ensures LexLe(r[i].0, r[j].0) {
      assert r[j] == ps[j - 1];
      if i > 0 { assert r[i] == ps[i - 1]; }
    }
  }

  /** Inserts `p` into a list already sorted by key. */
  function InsertByKey(p: Param, ps: seq<Param>): (r: seq<Param>)
    requires SortedByKey(ps)
    ensures SortedByKey(r)
    ensures multiset(r) == multiset(ps) + multiset{p}
    ensures forall q :: q in r ==> q == p || q in ps
    decreases |ps|
  {
    if ps == [] then [p]
    else if LexLe(p.0, ps[0].0) then
      assert forall j :: 0 <= j < |ps| ==> LexLe(p.0, ps[j].0) by {
        forall j | 0 <= j < |ps| ensures LexLe(p.0, ps[j].0) {
          if j > 0 { LexLeTransitive(p.0, ps[0].0, ps[j].0); }
        }
      }
      [p] + ps
    else
      LexLeTotal(p.0, ps[0].0);
      var rest := InsertByKey(p, ps[1..]);
      assert forall q :: q in rest ==> LexLe(ps[0].0, q.0);
      ConsSorted(ps[0], rest);
      assert ps == [ps[0]] + ps[1..];
      [ps[0]] + rest
  }

  /** Ruby's `Hash#sort` on a hash with distinct keys: the same entries in
      ascending key order. */
  function SortByKey(ps: seq<Param>): (r: seq<Param>)
    ensures SortedByKey(r)
    ensures multiset(r) == multiset(ps)
    decreases |ps|
  {
    if ps == [] then []
    else
      assert ps == [ps[0]] + ps[1..];
      InsertByKey(ps[0], SortByKey(ps[1..]))
  }

  predicate DistinctKeys(ps: seq<Param>) {
    forall i, j :: 0 <= i < j < |ps| ==> ps[i].0 != ps[j].0
  }

  /** Entries with distinct keys have only one ascending order: two sorted
      lists holding the same entries are the same list. */
  lemma {:induction false} SortedUnique(a: seq<Param>, b: seq<Param>)
    requires SortedByKey(a) && SortedByKey(b) && DistinctKeys(a) && DistinctKeys(b)
    requires |a| == |b| && forall x :: x in a <==> x in b
    ensures a == b
    decreases |a|
  {
    if |a| > 0 {
      assert a[0] in a;
      SameHead(a, b);
      TailMembers(a, b);
      TailSorted(a);
      TailSorted(b);
      TailDistinct(a);
      TailDistinct(b);
      SortedUnique(a[1..], b[1..]);
      assert a == [a[0]] + a[1..] && b == [b[0]] + b[1..];
    }
  }

  lemma TailMembers(a: seq<Param>, b: seq<Param>)
    requires DistinctKeys(a) && DistinctKeys(b) && |a| > 0 && |b| > 0 && a[0] == b[0]
    requires forall x :: x in a <==> x in b
    ensures forall x :: x in a[1..] <==> x in b[1..]
  {
    forall x ensures x in a[1..] ==> x in b[1..] {
      if x in a[1..] {
        var k :| 0 <= k < |a[1..]| && a[1..][k] == x;
        assert a[k + 1].0 != a[0].0;
        assert x in b && x != b[0];
        var l :| 0 <= l < |b| && b[l] == x;
        assert b[1..][l - 1] == x;
      }
    }
    forall x ensures x in b[1..] ==> x in a[1..] {
      if x in b[1..] {
        var k :| 0 <= k < |b[1..]| && b[1..][k] == x;
        assert b[k + 1].0 != b[0].0;
        assert x in a && x != a[0];
        var l :| 0 <= l < |a| && a[l] == x;
        assert a[1..][l - 1] == x;
      }
    }
  }

  lemma TailDistinct(ps: seq<Param>)
    requires DistinctKeys(ps) && |ps| > 0
    ensures DistinctKeys(ps[1..])
  {
    forall i, j | 0 <= i < j < |ps| - 1 ensures ps[1..][i].0 != ps[1..][j].0 {
      assert ps[1..][i] == ps[i + 1] && ps[1..][j] == ps[j + 1];
    }
  }

  lemma TailSorted(ps: seq<Param>)
    requires SortedByKey(ps) && |ps| > 0
    ensures SortedByKey(ps[1..])
  {
    forall i, j | 0 <= i < j < |ps| - 1 ensures LexLe(ps[1..][i].0, ps[1..][j].0) {
      assert ps[1..][i] == ps[i + 1] && ps[1..][j] == ps[j + 1];
    }
  }

  /** Both orders start with the entry of least key. */
  lemma SameHead(a: seq<Param>, b: seq<Param>)
    requires SortedByKey(a) && SortedByKey(b) && DistinctKeys(a)
    requires forall x :: x in a <==> x in b
    requires |a| > 0 && |b| > 0
    ensures a[0] == b[0]
  {
    assert a[0] in a && b[0] in b;
    var j :| 0 <= j < |b| && b[j] == a[0];
    var i :| 0 <= i < |a| && a[i] == b[0];
    assert LexLe(b[0].0, a[0].0) by { if j == 0 { LexLeTotal(b[0].0, b[0].0); } }
    assert LexLe(a[0].0, b[0].0) by { if i == 0 { LexLeTotal(a[0].0, a[0].0); } }
    LexLeAntisymmetric(a[0].0, b[0].0);
  }

  /** With distinct keys an entry occurs at most once. */
  lemma {:induction false} OccursAtMostOnce(ps: seq<Param>, x: Param)
    requires DistinctKeys(ps)
    ensures multiset(ps)[x] <= 1
    decreases |ps|
  {
    if |ps| > 0 {
      TailDistinct(ps);
      OccursAtMostOnce(ps[1..], x);
      assert ps == [ps[0]] + ps[1..];
      if ps[0] == x {
        forall k | 0 <= k < |ps[1..]| ensures ps[1..][k] != x {
          assert ps[1..][k] == ps[k + 1];
        }
        assert x !in ps[1..];
      }
    }
  }

  /** An entry found at two positions occurs at least twice. */
  lemma OccursTwice(ps: seq<Param>, i: nat, j: nat)
    requires i < j < |ps| && ps[i] == ps[j]
    ensures multiset(ps)[ps[i]] >= 2
  {
    assert ps == ps[..j] + [ps[j]] + ps[j + 1..];
    assert ps[..j][i] == ps[i];
  }

  /** Reordering entries with distinct keys keeps the keys distinct. */
  lemma PermutationKeepsDistinct(ps: seq<Param>, qs: seq<Param>)
    requires DistinctKeys(ps) && multiset(qs) == multiset(ps)
    ensures DistinctKeys(qs)
  {
    forall i, j | 0 <= i < j < |qs| ensures qs[i].0 != qs[j].0 {
      if qs[i].0 == qs[j].0 {
        assert qs[i] in multiset(ps) && qs[j] in multiset(ps);
        var k :| 0 <= k < |ps| && ps[k] == qs[i];
        var l :| 0 <= l < |ps| && ps[l] == qs[j];
        assert k == l;
        OccursTwice(qs, i, j);
        OccursAtMostOnce(ps, qs[i]);
        assert false;
      }
    }
  }

  /** Sorting entries with distinct keys yields the one sorted list that
      holds exactly those entries. */
  lemma SortIsUnique(ps: seq<Param>, ordered: seq<Param>)
    requires DistinctKeys(ps) && SortedByKey(ordered) && DistinctKeys(ordered)
    requires |ordered| == |ps| && forall x :: x in ordered <==> x in ps
    ensures SortByKey(ps) == ordered
  {
    PermutationKeepsDistinct(ps, SortByKey(ps));
    forall x ensures x in SortByKey(ps) <==> x in ps {
      assert x in SortByKey(ps) <==> x in multiset(SortByKey(ps));
    }
    assert |SortByKey(ps)| == |multiset(SortByKey(ps))| == |multiset(ps)| == |ps|;
    SortedUnique(ordered, SortByKey(ps));
  }

  /** `a` is before `b` when they agree up to position `k` and `a` has the
      smaller byte there. */
  lemma {:induction false} LexLeAt(a: Bytes, b: Bytes, k: nat)
    requires k < |a| && k < |b| && a[..k] == b[..k] && a[k] < b[k]
    ensures LexLe(a, b)
    decreases k
  {
    if k > 0 {
      assert a[0] == a[..k][0] && b[0] == b[..k][0];
      assert a[1..][..k - 1] == a[..k][1..] && b[1..][..k - 1] == b[..k][1..];
      LexLeAt(a[1..], b[1..], k - 1);
    }
  }

  /** A proper prefix comes first. */
  lemma {:induction false} LexLePrefix(a: Bytes, b: Bytes)
    requires |a| <= |b| && b[..|a|] == a
    ensures LexLe(a, b)
    decreases |a|
  {
    if |a| > 0 {
      assert b[1..][..|a| - 1] == a[1..];
      LexLePrefix(a[1..], b[1..]);
    }
  }

  /** In a sorted list whose neighbours differ in key, no key repeats. */
  lemma ChainDistinct(ps: seq<Param>)
    requires SortedByKey(ps)
    requires forall i :: 0 <= i < |ps| - 1 ==> ps[i].0 != ps[i + 1].0
    ensures DistinctKeys(ps)
  {
    forall i, j | 0 <= i < j < |ps| ensures ps[i].0 != ps[j].0 {
      if ps[i].0 == ps[j].0 {
        assert i + 1 < j;
        LexLeAntisymmetric(ps[i].0, ps[i + 1].0);
        assert false;
      }
    }
  }

  /** Each key before the next is enough when the order is a chain. */
  lemma {:induction false} ChainSorted(ps: seq<Param>)
    requires forall i :: 0 <= i < |ps| - 1 ==> LexLe(ps[i].0, ps[i + 1].0)
    ensures SortedByKey(ps)
    decreases |ps|
  {
    if |ps| > 1 {
      ChainSorted(ps[1..]);
      forall j | 1 <= j < |ps| ensures LexLe(ps[0].0, ps[j].0) {
        if j > 1 {
          assert ps[j] == ps[1..][j - 1];
          LexLeTransitive(ps[0].0, ps[1].0, ps[j].0);
        }
      }
      forall i, j | 0 <= i < j < |ps| ensures LexLe(ps[i].0, ps[j].0) {
        if i > 0 {
          assert ps[i] == ps[1..][i - 1] && ps[j] == ps[1..][j - 1];
        }
      }
    }
  }

  /** `"#{CGI.escape(key)}=#{CGI.escape(value)}"` */
  function PairString(p: Param): Bytes {
    Escape(p.0) + [EQUALS] + Escape(p.1)
  }

  /** The pair as the signing scheme encodes it (space as `%20`). */
  function PctPair(p: Param): Bytes {
    PctEncode(p.0) + [EQUALS] + PctEncode(p.1)
  }

  function PairStrings(ps: seq<Param>): (r: seq<Bytes>)
    ensures |r| == |ps|
  {
    if ps == [] then [] else [PairString(ps[0])] + PairStrings(ps[1..])
  }

  function PctPairs(ps: seq<Param>): (r: seq<Bytes>)
    ensures |r| == |ps|
    ensures forall i :: 0 <= i < |ps| ==> r[i] == PctPair(ps[i])
  {
    if ps == [] then [] else [PctPair(ps[0])] + PctPairs(ps[1..])
  }

  /** `parts.join("&")` */
  function JoinAmp(parts: seq<Bytes>): Bytes
    decreases |parts|
  {
    if |parts| == 0 then []
    else if |parts| == 1 then parts[0]
    else parts[0] + [AMP] + JoinAmp(parts[1..])
  }

  /** The canonicalized parameter string: the entries in ascending key
      order, each as `escape(key)=escape(value)`, joined by `&`, and then
      every `+` replaced by `%20`. */
  function Canonicalize(ps: seq<Param>): (r: Bytes)
    ensures PLUS !in r
  {
    ReplacePlus(JoinAmp(PairStrings(SortByKey(ps))))
  }

  lemma ReplacePlusPair(p: Param)
    ensures ReplacePlus(PairString(p)) == PctPair(p)
  {
    ReplacePlusAppend(Escape(p.0) + [EQUALS], Escape(p.1));
    ReplacePlusAppend(Escape(p.0), [EQUALS]);
    assert ReplacePlus([EQUALS]) == [EQUALS] + ReplacePlus([]);
    ReplacePlusEscape(p.0);
    ReplacePlusEscape(p.1);
  }

  lemma ReplacePlusAroundAmp(x: Bytes, y: Bytes)
    ensures ReplacePlus(x + [AMP] + y) == ReplacePlus(x) + [AMP] + ReplacePlus(y)
  {
    ReplacePlusAppend(x + [AMP], y);
    ReplacePlusAppend(x, [AMP]);
    assert ReplacePlus([AMP]) == [AMP] + ReplacePlus([]);
  }

  lemma {:induction false} ReplacePlusJoin(ps: seq<Param>)
    ensures ReplacePlus(JoinAmp(PairStrings(ps))) == JoinAmp(PctPairs(ps))
    decreases |ps|
  {
    if |ps| == 1 {
      ReplacePlusPair(ps[0]);
    } else if |ps| > 1 {
      var parts := PairStrings(ps);
      assert parts == [PairString(ps[0])] + PairStrings(ps[1..]);
      assert parts[1..] == PairStrings(ps[1..]);
      var pct := PctPairs(ps);
      assert pct == [PctPair(ps[0])] + PctPairs(ps[1..]);
      assert pct[1..] == PctPairs(ps[1..]);
      ReplacePlusAroundAmp(parts[0], JoinAmp(parts[1..]));
      ReplacePlusPair(ps[0]);
      ReplacePlusJoin(ps[1..]);
    }
  }

  /** The canonical string is the `&`-join of `key=value` pairs in
      ascending key order, each key and value percent-encoded with space
      as `%20` and `+` as `%2B`; no pair contains a `&` or a second `=`. */
  lemma CanonicalizeIsSortedPctPairs(ps: seq<Param>)
    ensures SortedByKey(SortByKey(ps)) && multiset(SortByKey(ps)) == multiset(ps)
    ensures Canonicalize(ps) == JoinAmp(PctPairs(SortByKey(ps)))
  {
    ReplacePlusJoin(SortByKey(ps));
  }

  const STRING_TO_SIGN_PREFIX: Bytes := Ascii("POST&%2F&")

  /** `"POST&%2F&" + CGI.escape(canonical)`. The escaped part holds no
      `&`, so the three fields are unambiguous, and unescaping it gives the
      canonical string back. */
  function StringToSign(canonical: Bytes): (r: Bytes)
    ensures |r| >= 9 && r[..9] == STRING_TO_SIGN_PREFIX
    ensures AMP !in r[9..]
    ensures Unescape(r[9..]) == canonical
  {
    UnescapeEscape(canonical);
    assert (STRING_TO_SIGN_PREFIX + Escape(canonical))[9..] == Escape(canonical);
    STRING_TO_SIGN_PREFIX + Escape(canonical)
  }

  /** The keyed hash and the encoding the signer relies on, left
      uninterpreted. */
  datatype Crypto = Crypto(hmacSha1: (Bytes, Bytes) -> Bytes, base64: Bytes -> Bytes)

  /** The HMAC key: the access key secret followed by `&`. */
  function SigningKey(secret: Bytes): (k: Bytes)
    ensures |k| == |secret| + 1 && k[..|secret|] == secret && k[|secret|] == AMP
  {
    secret + [AMP]
  }

  /** `Base64.strict_encode64(HMAC-SHA1("#{secret}&", string_to_sign))`
      over the parameters as they are before `Signature` is added. */
  function Signature(ps: seq<Param>, secret: Bytes, crypto: Crypto): Bytes {
    crypto.base64(crypto.hmacSha1(SigningKey(secret), StringToSign(Canonicalize(ps))))
  }

  function Keys(ps: seq<Param>): set<Bytes> {
    set i | 0 <= i < |ps| :: ps[i].0
  }

  lemma KeysCons(p: Param, ps: seq<Param>)
    ensures Keys([p] + ps) == {p.0} + Keys(ps)
  {
    var qs := [p] + ps;
    forall k | k in Keys(qs) ensures k in {p.0} + Keys(ps) {
      var i :| 0 <= i < |qs| && qs[i].0 == k;
      if i > 0 { assert ps[i - 1].0 == k; }
    }
    forall k | k in Keys(ps) ensures k in Keys(qs) {
      var i :| 0 <= i < |ps| && ps[i].0 == k;
      assert qs[i + 1].0 == k;
    }
    assert qs[0].0 == p.0;
  }

  /** Hash lookup: the value of the entry with key `k`. */
  function Get(ps: seq<Param>, k: Bytes): (r: Option<Bytes>)
    ensures r.Some? <==> k in Keys(ps)
  {
    if ps == [] then None
    else if ps[0].0 == k then Some(ps[0].1)
    else
      KeysCons(ps[0], ps[1..]);
      assert ps == [ps[0]] + ps[1..];
      Get(ps[1..], k)
  }

  /** The first entry with key `ps[i].0` is entry `i` when no earlier entry
      has that key. */
  lemma {:induction false} GetAt(ps: seq<Param>, i: nat)
    requires i < |ps|
    requires forall j :: 0 <= j < i ==> ps[j].0 != ps[i].0
    ensures Get(ps, ps[i].0) == Some(ps[i].1)
    decreases i
  {
    if i > 0 {
      GetAt(ps[1..], i - 1);
    }
  }

  lemma DistinctGet(ps: seq<Param>, i: nat)
    requires DistinctKeys(ps) && i < |ps|
    ensures Get(ps, ps[i].0) == Some(ps[i].1)
  {
    GetAt(ps, i);
  }

  /** Ruby's `hash[k] = v`: replaces the value of an existing key in its
      place, or appends a new entry at the end. */
  function Store(ps: seq<Param>, k: Bytes, v: Bytes): (r: seq<Param>)
    ensures Get(r, k) == Some(v)
    ensures forall k' :: k' != k ==> Get(r, k') == Get(ps, k')
    ensures k !in Keys(ps) ==> r == ps + [(k, v)]
    ensures Keys(r) == Keys(ps) + {k}
  {
    if ps == [] then [(k, v)]
    else
      assert ps == [ps[0]] + ps[1..];
      KeysCons(ps[0], ps[1..]);
      if ps[0].0 == k then
        KeysCons((k, v), ps[1..]);
        assert ([(k, v)] + ps[1..])[1..] == ps[1..];
        [(k, v)] + ps[1..]
      else
        var rest := Store(ps[1..], k, v);
        KeysCons(ps[0], rest);
        assert ([ps[0]] + rest)[1..] == rest;
        [ps[0]] + rest
  }

  const ACTION: Bytes := Ascii("Action")
  const VERSION: Bytes := Ascii("Version")
  const ACCESS_KEY_ID: Bytes := Ascii("AccessKeyId")
  const FORMAT: Bytes := Ascii("Format")
  const SIGNATURE_METHOD: Bytes := Ascii("SignatureMethod")
  const TIMESTAMP: Bytes := Ascii("Timestamp")
  const SIGNATURE_VERSION: Bytes := Ascii("SignatureVersion")
  const SIGNATURE_NONCE: Bytes := Ascii("SignatureNonce")
  const SERVICE: Bytes := Ascii("Service")
  const SERVICE_PARAMETERS: Bytes := Ascii("ServiceParameters")
  const SIGNATURE: Bytes := Ascii("Signature")

  const ACTION_VALUE: Bytes := Ascii("ImageModeration")
  const VERSION_VALUE: Bytes := Ascii("2022-03-02")
  const FORMAT_VALUE: Bytes := Ascii("JSON")
  const SIGNATURE_METHOD_VALUE: Bytes := Ascii("HMAC-SHA1")
  const SIGNATURE_VERSION_VALUE: Bytes := Ascii("1.0")
  const SERVICE_VALUE: Bytes := Ascii("baselineCheck")

  /** Lengths of the parameter names, and the first bytes of those that
      share a length: enough to tell every two names apart. */
  lemma NameFacts()
    ensures |ACTION| == 6 && |FORMAT| == 6 && ACTION[0] != FORMAT[0]
    ensures |VERSION| == 7 && |SERVICE| == 7 && VERSION[0] != SERVICE[0]
    ensures |TIMESTAMP| == 9 && |SIGNATURE| == 9 && TIMESTAMP[0] != SIGNATURE[0]
    ensures |ACCESS_KEY_ID| == 11 && |SIGNATURE_NONCE| == 14 && |SIGNATURE_METHOD| == 15
    ensures |SIGNATURE_VERSION| == 16 && |SERVICE_PARAMETERS| == 17
  {
  }

  /** The ten names in the order the client writes them are distinct, and
      none is `Signature`. */
  lemma WrittenKeys(ps: seq<Param>)
    requires |ps| == 10
    requires ps[0].0 == ACTION && ps[1].0 == VERSION && ps[2].0 == ACCESS_KEY_ID
    requires ps[3].0 == FORMAT && ps[4].0 == SIGNATURE_METHOD && ps[5].0 == TIMESTAMP
    requires ps[6].0 == SIGNATURE_VERSION && ps[7].0 == SIGNATURE_NONCE
    requires ps[8].0 == SERVICE && ps[9].0 == SERVICE_PARAMETERS
    ensures DistinctKeys(ps)
    ensures forall i :: 0 <= i < |ps| ==> ps[i].0 != SIGNATURE
  {
    NameFacts();
    forall i, j | 0 <= i < j < |ps| ensures ps[i].0 != ps[j].0 {
      if i == 0 && j == 3 {
        assert ps[i].0[0] != ps[j].0[0];
      } else if i == 1 && j == 8 {
        assert ps[i].0[0] != ps[j].0[0];
      } else {
        assert |ps[i].0| != |ps[j].0|;
      }
    }
  }

  /** The public request parameters of an `ImageModeration` call, in the
      order the client writes them. The timestamp, the nonce and the
      JSON-encoded service parameters are inputs. */
  function RequestParams(accessKeyId: Bytes, timestamp: Bytes, nonce: Bytes, serviceParameters: Bytes): (ps: seq<Param>)
    ensures |ps| == 10 && DistinctKeys(ps)
    ensures SIGNATURE !in Keys(ps)
    ensures Get(ps, ACCESS_KEY_ID) == Some(accessKeyId)
    ensures Get(ps, SIGNATURE_VERSION) == Some(SIGNATURE_VERSION_VALUE)
    ensures Get(ps, SIGNATURE_METHOD) == Some(SIGNATURE_METHOD_VALUE)
    ensures Get(ps, SERVICE_PARAMETERS) == Some(serviceParameters)
  {
    var ps := [ (ACTION, ACTION_VALUE),
      (VERSION, VERSION_VALUE),
      (ACCESS_KEY_ID, accessKeyId),
      (FORMAT, FORMAT_VALUE),
      (SIGNATURE_METHOD, SIGNATURE_METHOD_VALUE),
      (TIMESTAMP, timestamp),
      (SIGNATURE_VERSION, SIGNATURE_VERSION_VALUE),
      (SIGNATURE_NONCE, nonce),
      (SERVICE, SERVICE_VALUE),
      (SERVICE_PARAMETERS, serviceParameters) ];
    WrittenKeys(ps);
    DistinctGet(ps, 2);
    DistinctGet(ps, 4);
    DistinctGet(ps, 6);
    DistinctGet(ps, 9);
    ps
  }

  /** The parameters sent: the request parameters with `Signature`
      appended, computed over the request parameters alone. */
  function SignedParams(ps: seq<Param>, secret: Bytes, crypto: Crypto): (r: seq<Param>)
    requires SIGNATURE !in Keys(ps)
    ensures r == ps + [(SIGNATURE, Signature(ps, secret, crypto))]
    ensures Get(r, SIGNATURE) == Some(Signature(ps, secret, crypto))
  {
    Store(ps, SIGNATURE, Signature(ps, secret, crypto))
  }

  lemma ActionAfterAccessKeyId()
    ensures LexLe(ACCESS_KEY_ID, ACTION) && ACCESS_KEY_ID != ACTION
  {
    assert ACCESS_KEY_ID[..2] == ACTION[..2];
    LexLeAt(ACCESS_KEY_ID, ACTION, 2);
  }

  lemma FormatAfterAction()
    ensures LexLe(ACTION, FORMAT) && ACTION != FORMAT
  {
    LexLeAt(ACTION, FORMAT, 0);
  }

  lemma ServiceAfterFormat()
    ensures LexLe(FORMAT, SERVICE) && FORMAT != SERVICE
  {
    LexLeAt(FORMAT, SERVICE, 0);
  }

  lemma ServiceParametersAfterService()
    ensures LexLe(SERVICE, SERVICE_PARAMETERS) && SERVICE != SERVICE_PARAMETERS
  {
    assert SERVICE_PARAMETERS[..7] == SERVICE;
    LexLePrefix(SERVICE, SERVICE_PARAMETERS);
  }

  lemma SignatureMethodAfterServiceParameters()
    ensures LexLe(SERVICE_PARAMETERS, SIGNATURE_METHOD) && SERVICE_PARAMETERS != SIGNATURE_METHOD
  {
    assert SERVICE_PARAMETERS[..1] == SIGNATURE_METHOD[..1];
    LexLeAt(SERVICE_PARAMETERS, SIGNATURE_METHOD, 1);
  }

  lemma SignatureNonceAfterSignatureMethod()
    ensures LexLe(SIGNATURE_METHOD, SIGNATURE_NONCE) && SIGNATURE_METHOD != SIGNATURE_NONCE
  {
    assert SIGNATURE_METHOD[..9] == SIGNATURE_NONCE[..9];
    LexLeAt(SIGNATURE_METHOD, SIGNATURE_NONCE, 9);
  }

  lemma SignatureVersionAfterSignatureNonce()
    ensures LexLe(SIGNATURE_NONCE, SIGNATURE_VERSION) && SIGNATURE_NONCE != SIGNATURE_VERSION
  {
    assert SIGNATURE_NONCE[..9] == SIGNATURE_VERSION[..9];
    LexLeAt(SIGNATURE_NONCE, SIGNATURE_VERSION, 9);
  }

  lemma TimestampAfterSignatureVersion()
    ensures LexLe(SIGNATURE_VERSION, TIMESTAMP) && SIGNATURE_VERSION != TIMESTAMP
  {
    LexLeAt(SIGNATURE_VERSION, TIMESTAMP, 0);
  }

  lemma VersionAfterTimestamp()
    ensures LexLe(TIMESTAMP, VERSION) && TIMESTAMP != VERSION
  {
    LexLeAt(TIMESTAMP, VERSION, 0);
  }

  /** The request parameters in byte order of their names. */
  function KeyOrder(accessKeyId: Bytes, timestamp: Bytes, nonce: Bytes, serviceParameters: Bytes): seq<Param> {
    [ (ACCESS_KEY_ID, accessKeyId),
      (ACTION, ACTION_VALUE),
      (FORMAT, FORMAT_VALUE),
      (SERVICE, SERVICE_VALUE),
      (SERVICE_PARAMETERS, serviceParameters),
      (SIGNATURE_METHOD, SIGNATURE_METHOD_VALUE),
      (SIGNATURE_NONCE, nonce),
      (SIGNATURE_VERSION, SIGNATURE_VERSION_VALUE),
      (TIMESTAMP, timestamp),
      (VERSION, VERSION_VALUE) ]
  }

  /** Names in the order AccessKeyId … Version ascend strictly. */
  lemma AscendingKeys(ps: seq<Param>)
    requires |ps| == 10
    requires ps[0].0 == ACCESS_KEY_ID && ps[1].0 == ACTION && ps[2].0 == FORMAT
    requires ps[3].0 == SERVICE && ps[4].0 == SERVICE_PARAMETERS && ps[5].0 == SIGNATURE_METHOD
    requires ps[6].0 == SIGNATURE_NONCE && ps[7].0 == SIGNATURE_VERSION
    requires ps[8].0 == TIMESTAMP && ps[9].0 == VERSION
    ensures SortedByKey(ps) && DistinctKeys(ps)
  {
    ActionAfterAccessKeyId();
    FormatAfterAction();
    ServiceAfterFormat();
    ServiceParametersAfterService();
    SignatureMethodAfterServiceParameters();
    SignatureNonceAfterSignatureMethod();
    SignatureVersionAfterSignatureNonce();
    TimestampAfterSignatureVersion();
    VersionAfterTimestamp();
    assert forall i :: 0 <= i < |ps| - 1 ==> LexLe(ps[i].0, ps[i + 1].0) && ps[i].0 != ps[i + 1].0;
    ChainSorted(ps);
    ChainDistinct(ps);
  }

  lemma KeyOrderSorted(accessKeyId: Bytes, timestamp: Bytes, nonce: Bytes, serviceParameters: Bytes)
    ensures SortedByKey(KeyOrder(accessKeyId, timestamp, nonce, serviceParameters))
    ensures DistinctKeys(KeyOrder(accessKeyId, timestamp, nonce, serviceParameters))
  {
    AscendingKeys(KeyOrder(accessKeyId, timestamp, nonce, serviceParameters));
  }

  lemma KeyOrderMembers(accessKeyId: Bytes, timestamp: Bytes, nonce: Bytes, serviceParameters: Bytes)
    ensures forall x :: x in KeyOrder(accessKeyId, timestamp, nonce, serviceParameters)
                    <==> x in RequestParams(accessKeyId, timestamp, nonce, serviceParameters)
  {
  }

  /** The canonical string lists the parameters in this fixed order:
      AccessKeyId, Action, Format, Service, ServiceParameters,
      SignatureMethod, SignatureNonce, SignatureVersion, Timestamp, Version. */
  lemma CanonicalKeyOrder(accessKeyId: Bytes, timestamp: Bytes, nonce: Bytes, serviceParameters: Bytes)
    ensures SortByKey(RequestParams(accessKeyId, timestamp, nonce, serviceParameters))
         == KeyOrder(accessKeyId, timestamp, nonce, serviceParameters)
    ensures Canonicalize(RequestParams(accessKeyId, timestamp, nonce, serviceParameters))
         == ReplacePlus(JoinAmp(PairStrings(KeyOrder(accessKeyId, timestamp, nonce, serviceParameters))))
  {
    KeyOrderSorted(accessKeyId, timestamp, nonce, serviceParameters);
    KeyOrderMembers(accessKeyId, timestamp, nonce, serviceParameters);
    SortIsUnique(RequestParams(accessKeyId, timestamp, nonce, serviceParameters),
                 KeyOrder(accessKeyId, timestamp, nonce, serviceParameters));
  }
}
