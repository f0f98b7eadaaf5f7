# Session token store and request fingerprinting, in Dafny

This project models the core of an authentication helper for K2 SmartObject clients. The helper hands out short-lived opaque session tokens, one per client device, and revokes them. The model has three parts.

- **The session store** (`Sessions`, session_service.dfy) models `SessionService`. It is a class with two map fields. One indexes sessions by device id, the other by token. Its methods create, look up, clear and clear-all sessions, and they change those maps in place. Every method keeps the cross-index invariant `IndexesAgree`: the two maps hold the same sessions, every session sits under its own token and its own device id, and a device never holds two tokens. Expiry is lazy. A session is live while `expiresAt > now`, and a lookup that finds an expired session removes it from both maps. Creation follows the code's create-or-conflict policy: a device with a live session gets `ActiveSessionExists`, and its session is left as it is. `SessionLifecycleScenario` is a client that drives a one-hour store through create, a refused second create, expiry and clear, using the method contracts alone.
- **Request fingerprinting** (`DeviceInfoExtractor`, with the .NET string operations in `Text`) models the header rules. A request is an `HttpContext` value: the first value of each header, the set of header names present, and the remote address. The rules cover the client IP (first `X-Forwarded-For` hop, then `X-Real-IP`, then the remote address) and the "real" IP (the last hop of a chain of at least two). They also cover proxy detection, the user-agent default, the ordered device-name classification and MAC-address formatting. The .NET helpers come with their partners: split and join round-trip in both directions, ordinal `Contains` is tied to "occurs at some index", and MAC formatting is undone by `Ungroup`.
- **Response envelopes** (`K2Responses`) model the `K2Response<T>` and `K2ListResponse<T>` factories. Status code 0 means success and the default error code is 1. `TotalPages` is integer ceiling division.

Time is an integer count of `DateTime` ticks (100 ns). A token lifetime of `h` hours puts `expiresAt` at `now + h * 36_000_000_000`.

Three facts about the code shape the model:
- Creating a session for a device whose session is still live throws an `InvalidOperationException` (Services/DeviceService.cs:59-62), which the model renders as the `ActiveSessionExists` failure; the existing session is not returned.
- The `SessionTokenResponse` built at Services/DeviceService.cs:77-82 never assigns `IsNewSession`, so the model has no such field.
- The validate endpoint (Program.cs:114-146) reads the request headers but never reads the session store, so validation is not a store operation in this model.

## Model

| member | source | states |
|---|---|---|
| Sessions.IndexesAgreeIff | Services/DeviceService.cs:39-43 | under the invariant, the device index maps d to s iff the token index maps s's token to s and s's device id is d |
| Sessions.OneTokenPerDevice | Services/DeviceService.cs:55-63 | two stored tokens that belong to the same device are the same token: at most one session per device |
| Sessions.EvictKeepsAgreement | Services/DeviceService.cs:98-100 | removing a stored session from both indexes (expiry eviction or clear) keeps the indexes in agreement |
| Sessions.InsertKeepsAgreement | Services/DeviceService.cs:84-86 | adding a stamped session under an unused token, for a device without a session, keeps the indexes in agreement |
| Sessions.IndexSizesAgree | Services/DeviceService.cs:142-148 | the two indexes always have the same number of entries, so the count clear-all reports is the number of sessions |
| Sessions.SessionService.constructor | Services/DeviceService.cs:48-51 | the store starts empty, and the token lifetime is the configured number of hours, 24 when none is configured |
| Sessions.SessionService.CreateSession | Services/DeviceService.cs:53-89 | fails with ActiveSessionExists, changing nothing, iff the device has a live session; otherwise the new session has the fresh token, expires exactly TTL hours after now, and has the token and device id stamped into its device info; the device index maps the device to it, the token index maps the token to it, and the device's expired token no longer resolves |
| Sessions.SessionService.GetSessionByDeviceId | Services/DeviceService.cs:91-105 | a live session is returned with nothing changed; an expired one is reported absent and removed from both indexes; an unknown device is reported absent with nothing changed |
| Sessions.SessionService.GetSessionByToken | Services/DeviceService.cs:107-124 | the same three cases, keyed by token; eviction removes the session's device id from the device index |
| Sessions.SessionService.ClearSession | Services/DeviceService.cs:126-140 | returns true iff the token was stored, live or expired; on true, the token and its device leave both indexes; on false, nothing changes; afterwards the token is never stored, so a second clear returns false |
| Sessions.SessionService.ClearAllSessions | Services/DeviceService.cs:142-148 | returns the number of sessions before the call (the size of either index) and leaves both indexes empty |
| Text.Trim | Helpers/DeviceInfoExtractor.cs:24 | the result is the slice of the input that starts right after its leading white space and is followed only by white space; it has no white space at either end, and is empty iff the input is all white space |
| Text.TrimExcludes | Helpers/DeviceInfoExtractor.cs:24 | trimming brings in no character the input lacks, so a trimmed comma-free hop stays comma-free |
| Text.TrimIdempotent | Helpers/DeviceInfoExtractor.cs:24 | trimming twice is trimming once |
| Text.SplitOn | Helpers/DeviceInfoExtractor.cs:21 | splitting yields at least one piece, and no piece holds the separator |
| Text.JoinSplit | Helpers/DeviceInfoExtractor.cs:21 | joining the pieces of a split with the same separator restores the string |
| Text.SplitJoin | Helpers/DeviceInfoExtractor.cs:95-96 | splitting a join of separator-free pieces restores the pieces |
| Text.SplitNonEmpty | Helpers/DeviceInfoExtractor.cs:21 | with empty entries removed, every piece is non-empty and separator-free (which pieces, in which order: SplitNonEmptyPiece, SplitNonEmptyCons, SplitNonEmptySnoc) |
| Text.SplitNonEmptyNone | Helpers/DeviceInfoExtractor.cs:21-22 | the split with empty entries removed is empty iff the string is nothing but separators |
| Text.RemoveEmptyAppend | Helpers/DeviceInfoExtractor.cs:21 | dropping empty entries from a concatenation drops them from each part, keeping the order |
| Text.SplitNonEmptyPiece | Helpers/DeviceInfoExtractor.cs:21 | a separator-free string splits, with empty entries removed, into itself alone, or into nothing when it is empty |
| Text.SplitNonEmptyCons | Helpers/DeviceInfoExtractor.cs:21 | a leading entry before the first separator is the first non-empty piece when it is non-empty, followed by the non-empty pieces of the rest |
| Text.SplitSnoc | Helpers/DeviceInfoExtractor.cs:21 | splitting a string that ends with a separator-free entry after a separator gives the pieces of the front followed by that entry |
| Text.SplitNonEmptySnoc | Helpers/DeviceInfoExtractor.cs:21 | a trailing entry after the last separator is the last non-empty piece when it is non-empty, after the non-empty pieces of the front |
| Text.ContainsIff | Helpers/DeviceInfoExtractor.cs:113-121 | the ordinal substring test holds iff the pattern occurs at some index |
| Text.Pairs | Helpers/DeviceInfoExtractor.cs:95-96 | a string of n characters yields n/2 groups of two characters |
| Text.ConcatPairs | Helpers/DeviceInfoExtractor.cs:95-96 | the two-character groups of an even-length string put back together give the string |
| Text.JoinPairs | Helpers/DeviceInfoExtractor.cs:95-96 | joining k two-character groups gives 3k-1 characters with the separator at every third position, and Ungroup recovers the groups |
| DeviceInfoExtractor.ForwardedHops | Helpers/DeviceInfoExtractor.cs:18-21 | every entry of the X-Forwarded-For chain is non-empty and comma-free |
| DeviceInfoExtractor.ForwardedHopsEmpty | Helpers/DeviceInfoExtractor.cs:18-22 | the chain is empty iff the header is missing or holds only commas |
| DeviceInfoExtractor.FirstHopIsLeadingEntry | Helpers/DeviceInfoExtractor.cs:18-24 | when the X-Forwarded-For value starts with a non-empty entry before a comma, that entry is the first hop, followed by the non-empty entries of the rest, and the client IP is that entry trimmed |
| DeviceInfoExtractor.LastHopIsTrailingEntry | Helpers/DeviceInfoExtractor.cs:133-140 | when the X-Forwarded-For value ends with a non-empty entry after a comma and something other than commas comes before it, the chain is the non-empty entries before it followed by that entry, it has at least two hops, and the real IP is that entry trimmed |
| DeviceInfoExtractor.GetClientIpAddress | Helpers/DeviceInfoExtractor.cs:15-37 | the first hop, trimmed and comma-free, when the chain is non-empty; else a non-empty X-Real-IP; else the remote address or "unknown" |
| DeviceInfoExtractor.GetUserAgent | Helpers/DeviceInfoExtractor.cs:42-45 | the User-Agent value when the header has one (even empty), else "unknown" |
| DeviceInfoExtractor.IsVpnConnection | Helpers/DeviceInfoExtractor.cs:50-58 | the request is reported as relayed iff at least one of X-Forwarded-For, X-Real-IP and Via is present |
| DeviceInfoExtractor.VpnDependsOnNamesOnly | Helpers/DeviceInfoExtractor.cs:50-58 | proxy detection depends only on which headers are present, not on their values |
| DeviceInfoExtractor.EmptyForwardedForIsProxiedButIgnored | Helpers/DeviceInfoExtractor.cs:19-33 | an empty X-Forwarded-For marks the request as proxied, while the client IP falls through to X-Real-IP or the remote address |
| DeviceInfoExtractor.DirectConnectionUsesRemoteAddress | Helpers/DeviceInfoExtractor.cs:15-58 | with no proxy header present, both the client IP and the real IP are the remote address or "unknown" |
| DeviceInfoExtractor.HeaderDerivedIpMeansProxied | Helpers/DeviceInfoExtractor.cs:15-58 | whenever the client IP comes from a header, the request is reported as a VPN/proxy connection |
| DeviceInfoExtractor.GetRealIpAddress | Helpers/DeviceInfoExtractor.cs:130-145 | the last hop, trimmed and comma-free, when the chain has at least two hops; otherwise exactly the client IP |
| DeviceInfoExtractor.Classify | Helpers/DeviceInfoExtractor.cs:112-124 | the reference classification: the label of the first rule with a matching pattern, or "Unknown Device" when none matches |
| DeviceInfoExtractor.ClassifyDeviceNameRules | Helpers/DeviceInfoExtractor.cs:113-124 | the rule table Windows, Mac, Linux, Android, iPhone/iPad classifies exactly as the source's chain of Contains tests |
| DeviceInfoExtractor.GetDeviceName | Helpers/DeviceInfoExtractor.cs:102-125 | a non-empty X-Device-Name is returned unchanged; otherwise the user agent is classified by the ordered rule table |
| DeviceInfoExtractor.DeviceNameIsKnownLabel | Helpers/DeviceInfoExtractor.cs:112-124 | without the custom header, the name is one of the six fixed labels |
| DeviceInfoExtractor.MacShadowsIPhone | Helpers/DeviceInfoExtractor.cs:115-122 | a user agent containing both "Mac" and "iPhone" but not "Windows" is named "Mac Device" |
| DeviceInfoExtractor.FormatMacAddress | Helpers/DeviceInfoExtractor.cs:90-97 | input of any length other than 12 is returned unchanged; a 12-character address becomes 17 characters with ':' at every third position, and Ungroup gives the address back |
| DeviceInfoExtractor.FormatMacAddressIdempotent | Helpers/DeviceInfoExtractor.cs:92-93 | formatting an already formatted address changes nothing |
| K2Responses.Success | Models/K2Response.cs:37-45 | a success envelope (status 0) carrying the data and the message (default "Success") and no record count |
| K2Responses.PagedSuccess | Models/K2Response.cs:50-59 | a success envelope that also carries the record count |
| K2Responses.PagedSuccessExtendsSuccess | Models/K2Response.cs:37-59 | the paginated success is the plain success with the record count set |
| K2Responses.Error | Models/K2Response.cs:64-72 | carries the code and the message and no data; it reads as success only when the code is 0 |
| K2Responses.DefaultError | Models/K2Response.cs:77-80 | is exactly the error with code 1 and the message: no data, no record count, never read as success |
| K2Responses.SuccessAndErrorDiffer | Models/K2Response.cs:10-12 | a success envelope and an error envelope with a non-zero code are distinct and are told apart by the status code |
| K2Responses.TotalPages | Models/K2Response.cs:95 | 0 for a non-positive page size; otherwise the ceiling of records / page size: (pages-1)*size < records <= pages*size, and between 0 and the record count when that count is non-negative |
| K2Responses.CeilDiv | Models/K2Response.cs:95 | integer ceiling division by a positive divisor |
| K2Responses.ListSuccess | Models/K2Response.cs:97-108 | a success list (status 0) with the items, record count and paging given; page 1 and page size 10 by default |
| K2Responses.DefaultPaging | Models/K2Response.cs:95-97 | with the default page size, n records fill ceil(n/10) pages, and the page number is 1 |
| K2Responses.ListError | Models/K2Response.cs:110-119 | an error list with the given code, no items, zero records, and so zero pages |

## Left out

- Concurrency: the two `ConcurrentDictionary` indexes and their non-atomic paired updates are modelled as one object used sequentially.
- Token generation: `Guid.NewGuid()` is a caller-supplied `freshToken` that must not already be in the token index.
- The clock: `DateTime.Now` is an explicit `now` parameter. The `ArgumentOutOfRangeException` that `AddHours` raises outside `DateTime`'s range is not modelled.
- Configuration: reading `IConfiguration` becomes an optional constructor argument. A configured value that does not parse as an integer, which throws in the source, is not modelled.
- Sessions.SessionService.CreateSession: the source writes the token and the device id into the caller's `DeviceInfo` object in place. The model returns the stamped copy inside the new session, so it does not capture aliasing: a caller that changes that object later changes the stored session in the source.
- Sessions.SessionService.CreateSession: the `deviceName` argument is never used by the source, and the model has no such parameter.
- `SessionTokenResponse.IsNewSession` and `ServerDeviceInfo`: the store never sets them, so the model has neither field. `ServerDeviceInfo` is filled in by Program.cs.
- `SessionTokenResponse.DeviceInfo` is nullable in the source, but the store always sets it. The model makes it non-optional, so the `DeviceInfo?.MacAddress != null` guards at lines 115 and 131 always hold.
- Integer widths: `int` values (the TTL hours, `TotalRecords`, `PageSize`) are unbounded. `TotalPages` uses integer ceiling division instead of the `double` and `Math.Ceiling` computation, which agrees with it for 32-bit operands.
- DeviceInfoExtractor.FormatMacAddress: lengths count Unicode scalar values, whereas C# `Length` and `Substring` count UTF-16 code units. A string of 12 scalar values that contains a character outside the Basic Multilingual Plane has C# length 13, so the source returns it unchanged while the model formats it. The only caller passes hexadecimal digits, where the two counts agree.
- HTTP details: header names are matched in their canonical spelling, whereas ASP.NET matches them case-insensitively. Only the first value of each header is kept. The remote address is given already rendered as text.
- `K2Response.Data` is `None` where the source leaves `default`, which is `null` for reference types. For value types the source gives the type's zero value instead.
- `K2Response.Metadata` is not modelled.
- `DeviceInfoExtractor.GetServerMacAddress` is not modelled: it enumerates the host's network interfaces (host I/O).
- `DeviceInfoExtractor.GetUniqueDeviceId` is not modelled: it hashes with SHA-256 from a library outside the model.
- Program.cs (HTTP routing, CORS, Swagger, the error-code mapping) is not part of this model.
- Helpers/ClientDeviceInfo.cs (host network and DNS enumeration) is not part of this model.
- The empty `IDeviceService`/`DeviceService` and the request/response classes the store does not use (`DeviceValidationRequest`, `DeviceValidationResponse`, `DeviceRegistrationRequest`) are not modelled.
