# Discourse moderation plugin: the image moderation pipeline in Dafny

This project models the decision logic of the Discourse plugin that sends every image of a post to the Alibaba Cloud content-security service (`ImageModeration`, service `baselineCheck`) and approves or rejects the post. Everything modelled lives in `DiscourseModerationApi::ModerationService`. That code has three parts:

- **Orchestrator** (`analyze_content`). It takes the `src` of every `img` element of the rendered post and drops the missing ones. It resolves relative URLs against the site's base URL and checks the images in document order. The first image whose result is not `true` stops the loop and rejects the post. An error raised anywhere in this method approves the post (fail-open).
- **Moderation client** (`aliyun_image_moderation`). It builds the public request parameters and signs them with signature version 1.0. It then appends `Signature`, sends the request and turns the reply into `{approved: ...}`. An error raised inside the client approves that image only.
- **Decision policy**. The risk level is downcased and looked up in the allow-list setting. The setting is split on `,` and each piece is downcased, with no trimming. A listed level is approved. A clear level that is not listed is rejected. An absent or blank level is approved only when the list contains neither `medium` nor `high`.

The Dafny modules follow those parts:

| file | module | models |
|---|---|---|
| `wrappers.dfy` | `Wrappers` | `Option` |
| `text.dfy` | `Text` | ASCII `downcase`, `blank?`, `start_with?`, and Ruby's `split(',')` (empty trailing pieces dropped) |
| `form_encoding.dfy` | `FormEncoding` | bytes, `CGI.escape`, `gsub(/\+/, "%20")`, and `CGI.unescape` as the inverse |
| `signer.dfy` | `Signer` | the parameter hash, `Hash#sort`, the canonical string, the string to sign, the signature, and `hash[k] = v` |
| `risk_policy.dfy` | `RiskPolicy` | the allow-list parsing and the decision |
| `moderation_client.dfy` | `ModerationClient` | replies, the client's verdict, and the imperative `ImageModeration` method |
| `orchestrator.dfy` | `Orchestrator` | URL extraction and resolution, first-failure-wins aggregation, and the `CheckImages` loop inside `AnalyzeContent` |
| `scenarios.dfy` | `Scenarios` | concrete settings and replies worked through the model |

Collaborators that the code calls but that are not modelled are parameters:

- the HTTPS round trip: `Services.post`, from the sent parameters to a `Reply`;
- `to_json`: `Services.toJson`;
- HMAC-SHA1 and Base64: the fields of `Crypto`;
- the clock reading and the nonce: `Stamp`;
- the site settings: `Settings`;
- the base URL: an argument;
- the rendered and parsed post: `Document`, the list of `src` attributes or an error.

The orchestrator takes the per-image check as a function `string -> CheckResult`. Its result is `Approved(b)`, `Nil` or `Raised`. `Orchestrator.ClientRejectsIffSomeImageFalsy` plugs the client's `Verdict` in as that function.

Where the code and the fail-open intent of its comment at line 128 disagree, the model follows the code:

- **A non-2xx status with a JSON body rejects.** `approved` is never assigned on that path (lines 108 and 122-125). The client returns `{approved: nil}`, and `nil` is not truthy at line 44, so the post is rejected (`Orchestrator.FailedCallRejects`, `Scenarios.ServiceErrorRejects`). A JSON `null` or `false` body is treated the same way. A non-2xx reply whose body is not JSON fails open instead: `JSON.parse` at line 105 runs before the status test at line 108, and its error is rescued at lines 126-128. Examples are an HTML error page from a proxy, or an empty body. The model represents such a reply as `Reply.Thrown`.
- **An error inside the client approves one image only.** The client rescues every `StandardError` itself (lines 126-128), so a timeout approves that image and the loop goes on to the next one.
- **Odd response shapes fail open.** A 2xx body on which `dig("Data", "RiskLevel")` or `downcase` raises (`RiskField.Malformed`) is rescued in the client.
- **The allow-list is not a set.** A listed level is approved even if it is blank. The pieces are not trimmed, so `"low, none"` does not allow `none` (`Scenarios.UntrimmedPieceDoesNotMatch`).
- **URL resolution is plain concatenation.** A `src` that does not start with `http` gets the base URL prepended. This includes protocol-relative URLs (`//cdn...`) and upper-case `HTTP://` URLs.

## Model

| member | source | states |
|---|---|---|
| `Text.Fields` | lib/discourse_moderation_api/moderation_service.rb:112 | splitting gives at least one field, and no field contains the separator |
| `Text.JoinFields` | lib/discourse_moderation_api/moderation_service.rb:112 | joining the fields with the separator gives back the original setting: splitting loses no character |
| `Text.DropTrailingEmpty` | lib/discourse_moderation_api/moderation_service.rb:112 | Ruby's split keeps a prefix of the fields, ends in a non-empty field, and drops only empty ones |
| `Text.SplitKeepsNonEmpty` | lib/discourse_moderation_api/moderation_service.rb:112 | every non-empty piece of the setting is in the split result |
| `Text.SplitIsFieldsPrefix` | lib/discourse_moderation_api/moderation_service.rb:112 | the split result is the field list cut before its empty tail; no piece holds a comma |
| `Text.Split` | lib/discourse_moderation_api/moderation_service.rb:112 | models Ruby's `split(',')`: the fields with trailing empty ones removed; `SplitKeepsNonEmpty`, `SplitIsFieldsPrefix` and `JoinFields` carry its properties |
| `Text.IsBlank` | lib/discourse_moderation_api/moderation_service.rb:120 | models `blank?` on a string: empty or all whitespace; `RiskPolicy.Decide` uses it to tell a clear level from an unclear one |
| `Text.StartsWith` | lib/discourse_moderation_api/moderation_service.rb:40 | models `start_with?`; `Orchestrator.ResolveUrl` states what it decides |
| `Text.FieldsAtSep` | lib/discourse_moderation_api/moderation_service.rb:112 | the text before the first comma is the first piece, and the rest is split on its own |
| `Text.DowncaseIsLower` | lib/discourse_moderation_api/moderation_service.rb:109 | a downcased level has no upper-case letter, and downcasing twice is downcasing once |
| `Text.Downcase` | lib/discourse_moderation_api/moderation_service.rb:109 | models ASCII `downcase` character by character; `DowncaseIsLower` and `DowncaseOfLower` carry its properties |
| `FormEncoding.Escape` | lib/discourse_moderation_api/moderation_service.rb:84 | `CGI.escape` output never holds `&` or `=`, and holds `+` exactly when the input holds a space |
| `FormEncoding.ReplacePlus` | lib/discourse_moderation_api/moderation_service.rb:86 | after the `gsub` no `+` is left |
| `FormEncoding.ReplacePlusEscape` | lib/discourse_moderation_api/moderation_service.rb:84-86 | escaping and then replacing `+` by `%20` equals the reference percent encoding, in which space is `%20` and `+` is `%2B` |
| `FormEncoding.PctEncode` | lib/discourse_moderation_api/moderation_service.rb:84-86 | the reference encoding never emits `&`, `=` or `+` |
| `FormEncoding.UnescapeEscape` | lib/discourse_moderation_api/moderation_service.rb:89 | `CGI.unescape` undoes `CGI.escape` for every byte string |
| `Signer.LexLeTotal` | lib/discourse_moderation_api/moderation_service.rb:83 | any two keys are comparable under Ruby's string ordering |
| `Signer.LexLeTransitive` | lib/discourse_moderation_api/moderation_service.rb:83 | Ruby's string ordering on keys is transitive |
| `Signer.LexLeAntisymmetric` | lib/discourse_moderation_api/moderation_service.rb:83 | two keys that are each at most the other are equal |
| `Signer.LexLeAt` | lib/discourse_moderation_api/moderation_service.rb:83 | a key is ordered before another that agrees with it up to a position holding a larger byte |
| `Signer.LexLePrefix` | lib/discourse_moderation_api/moderation_service.rb:83 | a key is ordered before any key it is a prefix of |
| `Signer.InsertByKey` | lib/discourse_moderation_api/moderation_service.rb:83 | inserting into a key-sorted list keeps it sorted and adds exactly that entry |
| `Signer.SortByKey` | lib/discourse_moderation_api/moderation_service.rb:83 | `params.sort` is in ascending key order and is a permutation of the parameters |
| `Signer.SortedUnique` | lib/discourse_moderation_api/moderation_service.rb:83 | two key-sorted lists with distinct keys holding the same entries are equal, so the sorted order of a hash is determined |
| `Signer.PermutationKeepsDistinct` | lib/discourse_moderation_api/moderation_service.rb:83 | reordering entries whose keys are distinct keeps them distinct |
| `Signer.SortIsUnique` | lib/discourse_moderation_api/moderation_service.rb:83 | sorting a hash gives exactly the sorted list that holds its entries |
| `Signer.PairString` | lib/discourse_moderation_api/moderation_service.rb:84 | models `"#{CGI.escape(key)}=#{CGI.escape(value)}"`; `ReplacePlusPair` and `CanonicalizeIsSortedPctPairs` state its encoded form |
| `Signer.JoinAmp` | lib/discourse_moderation_api/moderation_service.rb:85 | models `join("&")`; `ReplacePlusJoin` states how the join meets the `+` replacement |
| `Signer.Canonicalize` | lib/discourse_moderation_api/moderation_service.rb:81-86 | the canonical string holds no `+` |
| `Signer.CanonicalizeIsSortedPctPairs` | lib/discourse_moderation_api/moderation_service.rb:81-86 | the canonical string is the `&`-join of `key=value` over all parameters in ascending key order, each percent-encoded with space as `%20` |
| `Signer.ReplacePlusJoin` | lib/discourse_moderation_api/moderation_service.rb:84-86 | replacing `+` after joining equals joining the reference-encoded pairs |
| `Signer.StringToSign` | lib/discourse_moderation_api/moderation_service.rb:89 | the string to sign starts with `POST&%2F&`, its escaped tail holds no `&`, and unescaping the tail gives back the canonical string |
| `Signer.Signature` | lib/discourse_moderation_api/moderation_service.rb:90-91 | models the Base64 of HMAC-SHA1 under the key `secret&` over the string to sign; `SignedParams` and `ModerationClient.SignedRequest` state where it goes |
| `Signer.Get` | lib/discourse_moderation_api/moderation_service.rb:92 | a hash lookup finds a value exactly for the keys present |
| `Signer.GetAt` | lib/discourse_moderation_api/moderation_service.rb:67-78 | an entry whose key no earlier entry has is what a lookup of that key finds |
| `Signer.Store` | lib/discourse_moderation_api/moderation_service.rb:92 | `hash[k] = v` makes `k` map to `v`, leaves every other key alone, adds `k` to the keys, and appends when `k` was new |
| `Signer.WrittenKeys` | lib/discourse_moderation_api/moderation_service.rb:67-78 | the ten names as the client writes them are pairwise distinct and none is `Signature` |
| `Signer.RequestParams` | lib/discourse_moderation_api/moderation_service.rb:67-78 | the ten public parameters have distinct names, exclude `Signature` and carry the access key id, `HMAC-SHA1`, version `1.0` and the service parameters |
| `Signer.KeyOrderSorted` | lib/discourse_moderation_api/moderation_service.rb:67-83 | the ten names in the order AccessKeyId … Version ascend strictly |
| `Signer.CanonicalKeyOrder` | lib/discourse_moderation_api/moderation_service.rb:67-86 | the canonical string lists the parameters as AccessKeyId, Action, Format, Service, ServiceParameters, SignatureMethod, SignatureNonce, SignatureVersion, Timestamp, Version |
| `Signer.SignedParams` | lib/discourse_moderation_api/moderation_service.rb:88-92 | `Signature` is appended after the others and is computed over the parameters without it |
| `RiskPolicy.Unclear` | lib/discourse_moderation_api/moderation_service.rb:120 | models `risk_level.blank?`: no level, or a blank one; `Decide` and `DecideCharacterized` state its effect |
| `RiskPolicy.DefaultDecision` | lib/discourse_moderation_api/moderation_service.rb:119 | models the fallback: approve only if neither `medium` nor `high` is listed; `DecideCharacterized` and `EmptyAllowList` state where it applies |
| `RiskPolicy.AllowedLevels` | lib/discourse_moderation_api/moderation_service.rb:112 | the allowed levels are the downcased split pieces in order: lower-case and comma-free |
| `RiskPolicy.Decide` | lib/discourse_moderation_api/moderation_service.rb:115-120 | a listed level approves; a clear unlisted level rejects whatever the fallback says; an unclear unlisted level gets the fallback |
| `RiskPolicy.DecideCharacterized` | lib/discourse_moderation_api/moderation_service.rb:115-120 | approved if and only if the level is listed, or it is unclear and the list has neither `medium` nor `high` |
| `RiskPolicy.EmptyAllowList` | lib/discourse_moderation_api/moderation_service.rb:112-120 | an empty or all-comma setting lists nothing; then only unclear levels are approved |
| `RiskPolicy.ListedPieceApproves` | lib/discourse_moderation_api/moderation_service.rb:109-116 | a non-empty piece of the setting approves the level whatever the case of either side |
| `RiskPolicy.ListedMeansSomePiece` | lib/discourse_moderation_api/moderation_service.rb:112-115 | a listed level is the downcasing of some untrimmed piece of the setting |
| `RiskPolicy.TwoLevelSetting` | lib/discourse_moderation_api/moderation_service.rb:112 | a setting of two lower-case pieces lists exactly those two pieces |
| `ModerationClient.Verdict` | lib/discourse_moderation_api/moderation_service.rb:105-128 | the client never raises; a raised error (connection, timeout, a body that is not JSON) approves; a 2xx body on which `dig` or `downcase` raises approves; a non-2xx status or a `null`/`false` body gives nil; a missing level gets the default; a level is decided by the policy after downcasing |
| `ModerationClient.SignedRequest` | lib/discourse_moderation_api/moderation_service.rb:67-92 | the request sent is the ten parameters followed by `Signature` over them |
| `ModerationClient.Moderate` | lib/discourse_moderation_api/moderation_service.rb:60-129 | models `aliyun_image_moderation` as a value: the verdict on the reply to the signed request; `ImageModeration` is proved to return it |
| `ModerationClient.ImageModeration` | lib/discourse_moderation_api/moderation_service.rb:61-129 | the imperative client sends exactly the signed request and returns the verdict on the reply |
| `Orchestrator.Compact` | lib/discourse_moderation_api/moderation_service.rb:37 | `.compact` yields no more values than there are `img` elements |
| `Orchestrator.CompactKeepsPresent` | lib/discourse_moderation_api/moderation_service.rb:37 | `.compact` keeps exactly the present `src` values |
| `Orchestrator.CompactAppend` | lib/discourse_moderation_api/moderation_service.rb:37 | compacting commutes with concatenation, so order and duplicates are kept |
| `Orchestrator.CompactEmpty` | lib/discourse_moderation_api/moderation_service.rb:37 | nothing is checked exactly when no image has a `src` |
| `Orchestrator.ResolveUrl` | lib/discourse_moderation_api/moderation_service.rb:40 | an `http…` URL passes unchanged, any other gets the base URL prepended, and an `http` base gives an `http` result |
| `Orchestrator.ResolveIdempotent` | lib/discourse_moderation_api/moderation_service.rb:40 | with an `http` base, resolving twice is resolving once |
| `Orchestrator.ImageUrls` | lib/discourse_moderation_api/moderation_service.rb:37-40 | models the `src`-to-URL pipeline (`.compact`, then prefixing relative URLs); its meaning is stated by `ImageUrlsAppend` and `ImageUrlsMembers` |
| `Orchestrator.ResolveAllAppend` | lib/discourse_moderation_api/moderation_service.rb:39-40 | resolving a list of URLs commutes with concatenation |
| `Orchestrator.ImageUrlsAppend` | lib/discourse_moderation_api/moderation_service.rb:37-40 | the URLs of a document are those of its parts in order; an `img` with a `src` contributes exactly its resolved URL, one without contributes nothing |
| `Orchestrator.ImageUrlsMembers` | lib/discourse_moderation_api/moderation_service.rb:37-40 | a URL is checked if and only if it is the resolution of some present `src` |
| `Orchestrator.Aggregate` | lib/discourse_moderation_api/moderation_service.rb:39-57 | models the loop's outcome: the first non-`true` result decides, approving only a raised error; `AggregateFalse`, `AggregateWithoutErrors`, `RaisedApproves` and `FalsyRejects` carry its properties |
| `Orchestrator.Checked` | lib/discourse_moderation_api/moderation_service.rb:39-48 | the loop looks at the results up to and including the first one that is not `true`, or at all of them |
| `Orchestrator.FirstUntruthy` | lib/discourse_moderation_api/moderation_service.rb:44 | a result that is not `true` has a first such result at or before it |
| `Orchestrator.AggregateFalse` | lib/discourse_moderation_api/moderation_service.rb:39-53 | the post is rejected if and only if some result is `false` or `nil` and every earlier one is `true` |
| `Orchestrator.AggregateWithoutErrors` | lib/discourse_moderation_api/moderation_service.rb:39-53 | when no check raises, the post is approved if and only if every image is approved |
| `Orchestrator.AggregateAfterApproved` | lib/discourse_moderation_api/moderation_service.rb:44 | an all-approved prefix changes neither the outcome nor which results are looked at after it |
| `Orchestrator.FirstRejectedShortCircuits` | lib/discourse_moderation_api/moderation_service.rb:44-47 | a rejected first image stops the loop after one check and rejects |
| `Orchestrator.RaisedApproves` | lib/discourse_moderation_api/moderation_service.rb:54-57 | an error reached before any rejection approves the post and ends the loop there |
| `Orchestrator.ClientRejectsIffSomeImageFalsy` | lib/discourse_moderation_api/moderation_service.rb:39-53 | with the client doing the checks, the post is rejected if and only if some image gets `false` or `nil` |
| `Orchestrator.FailedCallRejects` | lib/discourse_moderation_api/moderation_service.rb:105-125 | a non-2xx reply whose body did parse as JSON, for any image reached, rejects the post, since `approved` stays `nil` |
| `Orchestrator.FalsyRejects` | lib/discourse_moderation_api/moderation_service.rb:43-46 | a `false` or `nil` reached after only approvals rejects the content and ends the loop at that image |
| `Orchestrator.AllApproved` | lib/discourse_moderation_api/moderation_service.rb:39-52 | when every image is approved the content is approved after checking all of them |
| `Orchestrator.CheckImages` | lib/discourse_moderation_api/moderation_service.rb:39-47 | the image loop returns the first-failure-wins outcome (a raised error approves) and sends the client exactly the URLs up to the first non-`true` result |
| `Orchestrator.Analysis` | lib/discourse_moderation_api/moderation_service.rb:34-58 | models the value `analyze_content` returns: approval for an unparsable post, otherwise `Aggregate` over the checked URLs; `AnalyzeContent` is proved to return it and `ClientRejectsIffSomeImageFalsy` characterises it |
| `Orchestrator.AnalyzeContent` | lib/discourse_moderation_api/moderation_service.rb:24-59 | the loop returns the first-failure-wins outcome, approves an unparsable post, and sends the client exactly the URLs up to the first non-`true` result |
| `Scenarios.UntrimmedPieces` | lib/discourse_moderation_api/moderation_service.rb:112 | `"low, none"` lists `low` and ` none` |
| `Scenarios.UntrimmedPieceDoesNotMatch` | lib/discourse_moderation_api/moderation_service.rb:112-120 | under `"low, none"` the level `none` is rejected |
| `Scenarios.LowNoneLevels` | lib/discourse_moderation_api/moderation_service.rb:112 | `"low,none"` lists `low` and `none` |
| `Scenarios.OneImageIsVerdict` | lib/discourse_moderation_api/moderation_service.rb:37-53 | a post with one relative image is decided by the client's verdict on its resolved URL |
| `Scenarios.HighIsRejected` | lib/discourse_moderation_api/moderation_service.rb:115-120 | one image classified `high` under `"low,none"` rejects the post |
| `Scenarios.LowIsApproved` | lib/discourse_moderation_api/moderation_service.rb:109-116 | one image classified `LOW` under `"low,none"` approves the post |
| `Scenarios.TimeoutFailsOpen` | lib/discourse_moderation_api/moderation_service.rb:126-128 | one image whose call raises approves the post |
| `Scenarios.ServiceErrorRejects` | lib/discourse_moderation_api/moderation_service.rb:105-125 | one image answered with status 503 and a JSON body rejects the post |
| `Scenarios.UnknownLevelApproved` | lib/discourse_moderation_api/moderation_service.rb:119-120 | one image with no level under `"low,none"` approves the post |
| `Scenarios.UnknownLevelRejected` | lib/discourse_moderation_api/moderation_service.rb:119-120 | under `"low,medium"` an absent level is rejected |
| `Scenarios.NoImagesApproved` | lib/discourse_moderation_api/moderation_service.rb:37-53 | a post without images, or whose images lack `src`, is approved |
| `Scenarios.SecondImageRejects` | lib/discourse_moderation_api/moderation_service.rb:39-48 | an approved first image and a rejected second image reject the post after two checks |
| `Scenarios.PlusAndSpaceEncoding` | lib/discourse_moderation_api/moderation_service.rb:84-86 | a literal `+` is signed as `%2B` and a space as `%20` |

## Left out

- `analyze_post` (lines 5-20) is not modelled. It only reads the post's record fields and formats strings.
- The HTTPS request, TLS, the regional endpoint URI and `URI.encode_www_form` (lines 95-104) are not modelled. They are network I/O, so the model starts from the `Reply` that `Services.post` gives for the sent parameters.
- `JSON.parse` and `to_json` (lines 77 and 105) are not modelled: they belong to a foreign library. The parsed body is reduced to what the code inspects: `null`/`false`, or the result of the `Data.RiskLevel` lookup. The `ServiceParameters` value is whatever `Services.toJson` returns.
- HMAC-SHA1 and strict Base64 (lines 90-91) are not interpreted (cryptography). The model fixes only what they are applied to.
- `Time.now` and `SecureRandom.uuid` (lines 15, 73 and 75) are inputs (`Stamp`) because they are nondeterministic. `Moderate` uses one stamp per call, and the orchestrator abstracts the per-image check as a function. So the model says nothing about nonces being fresh across calls.
- `PrettyText.cook` and the Nokogiri parse (line 36) are not modelled: they are foreign rendering and parsing. Their result is a `Document`: the `src` of each `img` in document order, or an error.
- `SiteSetting` and `Discourse.base_url` reads are parameters. The region default `cn-shanghai` (line 64) feeds only the endpoint URI and is not modelled.
- The `Rails.logger` calls are not modelled. They have no effect on the result.
- The reserved text-moderation hook (lines 50-51 and 131-134) is not modelled: it is commented out.
- Ruby's Unicode-aware `downcase` and `[[:space:]]` are modelled on ASCII only. Non-ASCII letters are not folded, and non-ASCII spaces do not count as blank.
- Strings that the signer encodes are byte strings. The settings' access key id and secret are given as UTF-8 bytes. The model does not capture Ruby's string encodings.
- `response.code.to_i` is modelled as an integer status.
- A Ruby `Hash` is modelled as a sequence of entries in insertion order. `Hash#sort` is modelled as a sort by key: a hash has distinct keys, so Ruby never needs to compare values.
- Exceptions that are not `StandardError` escape both `rescue` clauses in the code. The model does not represent them.
