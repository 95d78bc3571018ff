/** One call of the image moderation client: build and sign the request,
    send it, and turn the reply into `{approved: ...}`. The network, the
    JSON encoder and the cryptography are collaborators passed in. */
module ModerationClient {
  import opened Wrappers
  import opened Text
  import opened FormEncoding
  import opened Signer
  import opened RiskPolicy

  /** What `json_response.dig("Data", "RiskLevel")&.downcase` meets: no
      level (a missing `Data` or `RiskLevel`, or JSON `null`), a string
      level, or a shape on which `dig` or `downcase` raises. */
  datatype RiskField = Absent | Level(token: string) | Malformed

  /** The parsed JSON body: `null` or `false`, or any other value. */
  datatype Body = Falsy | Parsed(riskField: RiskField)

  /** The outcome of sending the request: an error raised on the way
      (connection, timeout, a body that is not JSON), or a response with
      its numeric status and parsed body. */
  datatype Reply = Thrown | Response(status: int, body: Body)

  /** The result of checking one image: the `approved` entry of the hash
      the client returns (`true`, `false` or `nil`), or an error raised
      while checking it. */
  datatype CheckResult = Approved(value: bool) | Nil | Raised

  /** The site settings the client reads. */
  datatype Settings = Settings(accessKeyId: Bytes, accessKeySecret: Bytes, allowList: string)

  /** The clock reading and the random nonce of one call. */
  datatype Stamp = Stamp(timestamp: Bytes, nonce: Bytes)

  /** `to_json` of the service parameters, the cryptography, and the
      HTTPS round trip. */
  datatype Services = Services(toJson: string -> Bytes, crypto: Crypto, post: seq<Param> -> Reply)

  predicate IsSuccess(status: int) {
    200 <= status < 300
  }

  /** The `{approved: ...}` hash the client returns for a reply under the
      allow-list setting. The client never lets an error out. */
  function Verdict(reply: Reply, allowList: string): (r: CheckResult)
    ensures !r.Raised?
    // an error raised inside the client is rescued as approval
    ensures reply.Thrown? ==> r == Approved(true)
    // a non-2xx status or a null body leaves `approved` nil
    ensures reply.Response? && !(IsSuccess(reply.status) && reply.body.Parsed?) ==> r == Nil
    // a 2xx body on which `dig` or `downcase` raises is rescued as approval
    ensures reply.Response? && IsSuccess(reply.status) && reply.body == Parsed(Malformed) ==> r == Approved(true)
    // a 2xx reply with no level falls back on the default decision
    ensures reply.Response? && IsSuccess(reply.status) && reply.body == Parsed(Absent) ==>
              r == Approved(DefaultDecision(AllowedLevels(allowList)))
    // a 2xx reply with a level is decided by the policy, after downcasing
    ensures reply.Response? && IsSuccess(reply.status) && reply.body.Parsed? && reply.body.riskField.Level? ==>
              r == Approved(Decide(Some(Downcase(reply.body.riskField.token)), AllowedLevels(allowList)))
  {
    match reply
    case Thrown => Approved(true)
    case Response(status, body) =>
      if IsSuccess(status) && body.Parsed? then
        match body.riskField
        case Malformed => Approved(true)
        case Absent => Approved(Decide(None, AllowedLevels(allowList)))
        case Level(token) => Approved(Decide(Some(Downcase(token)), AllowedLevels(allowList)))
      else Nil
  }

  /** The parameters the client sends for one image: the ten public
      parameters with `Signature` appended, signed with the secret. */
  function SignedRequest(imageUrl: string, settings: Settings, stamp: Stamp, services: Services): (ps: seq<Param>)
    ensures var base := RequestParams(settings.accessKeyId, stamp.timestamp, stamp.nonce, services.toJson(imageUrl));
            ps == base + [(SIGNATURE, Signature(base, settings.accessKeySecret, services.crypto))]
  {
    var base := RequestParams(settings.accessKeyId, stamp.timestamp, stamp.nonce, services.toJson(imageUrl));
    SignedParams(base, settings.accessKeySecret, services.crypto)
  }

  /** The result of checking one image, as a function of its URL. */
  function Moderate(imageUrl: string, settings: Settings, stamp: Stamp, services: Services): CheckResult {
    Verdict(services.post(SignedRequest(imageUrl, settings, stamp, services)), settings.allowList)
  }

  /** `aliyun_image_moderation`: fills the parameter hash, signs it, adds
      `Signature`, sends it, and decides; `approved` stays nil unless the
      reply is a 2xx with a body. `sent` is the hash as it went out. */
  method ImageModeration(imageUrl: string, settings: Settings, stamp: Stamp, services: Services)
    returns (response: CheckResult, ghost sent: seq<Param>)
    ensures sent == SignedRequest(imageUrl, settings, stamp, services)
    ensures response == Verdict(services.post(sent), settings.allowList)
    ensures response == Moderate(imageUrl, settings, stamp, services)
  {
    var params := RequestParams(settings.accessKeyId, stamp.timestamp, stamp.nonce, services.toJson(imageUrl));
    var canonicalized := Canonicalize(params);
    var stringToSign := StringToSign(canonicalized);
    var hmac := services.crypto.hmacSha1(SigningKey(settings.accessKeySecret), stringToSign);
    var signature := services.crypto.base64(hmac);
    params := Store(params, SIGNATURE, signature);
    sent := params;

    var reply := services.post(params);
    if reply.Thrown? {
      // rescue => e: fail open for this image
      return Approved(true), sent;
    }
    var approved: Option<bool> := None;
    if reply.body.Parsed? && IsSuccess(reply.status) {
      var riskLevel: Option<string>;
      match reply.body.riskField {
        case Malformed =>
          return Approved(true), sent;
        case Absent =>
          riskLevel := None;
        case Level(token) =>
          riskLevel := Some(Downcase(token));
      }
      var allowedLevels := AllowedLevels(settings.allowList);
      if riskLevel.Some? && riskLevel.value in allowedLevels {
        approved := Some(true);
      } else {
        var defaultDecision := DefaultDecision(allowedLevels);
        approved := Some(if Unclear(riskLevel) then defaultDecision else false);
      }
    }
    response := if approved.Some? then Approved(approved.value) else Nil;
  }
}
