# cs340 Computer Networks — a verified model of the core

This project models the core of four networking assignments written in Python, and proves properties of that model in Dafny.

- **P1, HTTP.** `http_server2.py` is a file server: it answers `GET` with an HTML page from the working directory, or with 403 or 404. `http_server3.py` is a product server: `/product?a=1&b=2` is answered with the operands and their product as JSON. `http_client.py` is a client: it fetches a URL, follows up to ten redirects and prints the HTML body.
- **P2, reliable streaming.** `streamer.py` is a reliable byte stream over a lossy UDP socket. It has Nagle-style coalescing into 1450-byte chunks, a 16-byte MD5 checksum in front of each segment, per-segment acknowledgements and retransmission, in-order delivery, and a FIN / FIN-ACK close handshake.
- **P3, routing.** `distance_vector_node.py` is a distance-vector node (Bellman-Ford relaxation over neighbour vectors). `link_state_node.py` is a link-state node: it floods a link-state database and runs Dijkstra on it.
- **P4, geolocation.** `geo_helper.py` holds the helpers that turn IP addresses into location texts through a MaxMind database. The `P4_moore` copy of `search_database` and `get_geo_information` is textually the same as P4's and is modelled once.

## Modules

| module | file | models |
|---|---|---|
| `Base` | base.dfy | Python's string and list builtins the core relies on: `find`, `split`, `split(sep, 1)`, slicing, `strip`, `str(n)`, `int(s)` and `list.remove`. It also holds `Option`, `Result` (a value, a `sys.exit` status, or a raised exception) and `byte`. |
| `Http` | http.dfy | The shared parts of the two servers: the port and argument checks, reading the request line, and the layout of a response. |
| `HttpServer2` | http_server2.py | The file server. The file system is a value (`FileSystem`) and the date is a parameter. |
| `HttpServer3` | http_server3.py | The product server. `float` parsing and the JSON rendering are parameters. |
| `HttpClient` | http_client.py | The client. The network is a parameter that maps a request to the reply text. |
| `HttpExchange` | — | Client and servers put together: what the client makes of each server's answers. |
| `Codec` | streamer.py | The segment layout `checksum ‖ seq(int32, big-endian) ‖ ack ‖ fin ‖ payload`, and the receiver's checks. |
| `Streamer` | streamer.py | The `Streamer` object. There is a pure state `Conn` with one step function per thread event, the invariant `ConnValid` they keep, and the class `Streamer` whose methods update its fields as those steps do. |
| `DistanceVector` | distance_vector_node.py | The distance-vector node. Pure functions define link updates, vector acceptance and relaxation; the class `DistanceVectorNode` runs the loops. |
| `LinkPaths` | link_state_node.py | Links as unordered pairs, paths and their costs, and the frontier argument behind Dijkstra's correctness. |
| `LinkState` | link_state_node.py | The link-state database as an insertion-ordered dict, flooding, and the class `LinkStateNode` with `run_dijkstra` proved to return a cheapest path. |
| `Geo` | geo_helper.py | `get_info`, `search_database` and `get_geo_information`. The MaxMind reader is a parameter `Lookup`. |

Behaviour of the source that the model reproduces and proves, rather than corrects:

- The file server's 403 and 404 answers carry no `Content-Type`, so the client fails on them with `KeyError` (`HttpExchange.ClientFailsOnFileServerError`).
- The product server's error answers end after one CRLF and hold no blank line, so the client fails on them with `IndexError` (`HttpExchange.ClientFailsOnProductServerError`).
- The product server's successful answer is `application/json`, which the client refuses with exit status 7 (`HttpExchange.ClientRefusesProductAnswer`). The two programs of P1 therefore never complete an exchange with each other except for the file server's pages.
- The client keeps the body only up to the response's first blank line (`split("\r\n\r\n")[1]`).
- `search_database` leaves a trailing `, ` when the country is missing (`Geo.SearchLayout`).
- The `<=` in `handle_dv_link_update` lets a neighbour whose own cost is infinite become the route, so the node keeps cost `inf` but gets a next hop (`DistanceVector.HandledTakesInfiniteRoute`). `recompute_dv_table` uses `<` and does not do this.
- The coalescing buffer of the streamer is never cleared after a flush, so the next check sends the same bytes again under new numbers (`Streamer.FlushRepeats`).
- One counter serves both directions, so every payload delivered by `recv` shifts the numbers of the data sent next (`Streamer.DeliverShiftsSending`).
- A duplicate ack that arrives after its retransmission timer has forgotten the number puts the entry back into `sent_ack_buffer`. No timer is rescheduled for it and no other step removes a key, so `close` waits for ever (`Streamer.LateAckBlocksClose`, `Streamer.ListenerKeepsAcks`, `Streamer.SenderKeepsAcks`).

## Model

| member | source | states |
|---|---|---|
| Base.Find | P1/http_client.py:151-156 | `s.find(p)` is -1 exactly when `p` does not occur; otherwise it is an index where `p` occurs, and `p` occurs at no earlier index |
| Base.Split | P1/http_client.py:97-103 | `s.split(sep)` for a non-empty separator gives at least one piece, so `[0]` never fails |
| Base.JoinSplit | P1/http_client.py:97-103 | joining the pieces of `s.split(sep)` with `sep` gives back `s` |
| Base.SplitPiecesFree | P1/http_client.py:97-103 | no piece of a split holds the separator |
| Base.SplitJoin | P1/http_client.py:116-117 | pieces that avoid the separator, joined and split again, come back unchanged |
| Base.SplitOnce | P1/http_client.py:107 | `split(":", 1)`: one piece when there is no `:`; otherwise the text before the first `:` and everything after it |
| Base.PySlice | P1/http_client.py:157 | `s[a:b]` is the ordinary slice for bounds inside the text, and is never longer than the text |
| Base.Strip | P1/http_client.py:136 | `strip()` gives a contiguous part of the input, with only whitespace before and after it, that neither starts nor ends with whitespace |
| Base.NatToString | P1/http_server2.py:108 | `str(n)` writes at least one decimal digit, and starts with `0` only for 0 |
| Base.NatToStringRoundTrip | P1/http_server2.py:108 | reading back what `str(n)` wrote gives `n` |
| Base.NatToStringInjective | P1/http_server2.py:108 | distinct numbers print differently |
| Base.ParseInt | P1/http_client.py:116 | `int(s)` accepts exactly an optional sign followed by digits, otherwise `ValueError` |
| Base.ParseIntOfNat | P1/http_client.py:116 | `int(str(n)) == n` |
| Base.RemoveFirst | P3/distance_vector_node.py:56 | `list.remove(x)` drops exactly the first occurrence of `x`: the list before it, then the list after it |
| Base.RemoveFirstMembers | P3/link_state_node.py:50 | removing a member of a list without repeats leaves exactly the other members, still without repeats |
| Base.JoinBounds | P4/helper_files/geo_helper.py:27-38 | a join starts with its first piece and ends with its last |
| Http.CheckPortValidity | P1/http_server2.py:163-176 | the port passes exactly when it lies in 1024..65535; otherwise the program exits with 7 (the same check is P1/http_server3.py:162-175) |
| Http.CheckArgumentFormat | P1/http_server2.py:179-188 | the arguments pass exactly when there are two; otherwise the program exits with 7 (the same check is P1/http_server3.py:178-187 and, in the client, P1/http_client.py:21-30) |
| Http.RequestTarget | P1/http_server2.py:73-96 | reading the target fails only with exit 7 or `IndexError`; a target is the second token of a first line that starts with `GET` and whose third token does not start with `HTTPS` |
| Http.RequestLineRead | P1/http_server2.py:73-96 | a request is judged on the tokens of its first line alone: exit 7 when the method is not `GET`, `IndexError` without a version token, exit 7 for `HTTPS`, otherwise the second token is the target |
| Http.LinesEnd | P1/http_server2.py:99-123 | a response starts with its status line and ends with the blank line and its body |
| Http.JoinLines | P1/http_server2.py:108-121 | header lines each ended by CRLF are their CRLF-join followed by one CRLF |
| Http.NoBlankInHead | P1/http_server2.py:108-121 | header lines that hold no CR never produce a blank line (CRLF CRLF) before the end of the headers |
| Http.MessageHead | P1/http_server2.py:99-123 | the first blank line of a response is the one right after its header lines |
| Http.StatusOnlyHasNoBlank | P1/http_server3.py:88-98 | a status line alone, ended by one CRLF, holds no blank line |
| HttpServer2.CreateResponse | P1/http_server2.py:99-123 | the response starts with the status line and ends with the blank line, followed by the content for a success (code below 400) and by nothing for an error; an error response is exactly the status line, `Connection: close`, `Date: <date> GMT`, each ended by CRLF, and one more CRLF |
| HttpServer2.LastPiece | P1/http_server2.py:135-138 | the extension (`split(".")[-1]`) is a suffix of the name, right after its last dot |
| HttpServer2.LastPieceFree | P1/http_server2.py:135-138 | the extension holds no dot |
| HttpServer2.ExtensionIs | P1/http_server2.py:135-138 | a name has extension `x` (a word without dots) exactly when it is `x` or ends with `.x` |
| HttpServer2.LastPieceIs | P1/http_server2.py:135-138 | the last piece of a split on one character is `x` exactly when the text is `x` or ends with that character and `x` |
| HttpServer2.PageExtension | P1/http_server2.py:135-138 | a name has extension `html` or `htm` exactly when it is such a word or ends with `.html` or `.htm` |
| HttpServer2.GetResponseForRequestedFile | P1/http_server2.py:126-160 | a missing path gives 404; an existing path whose name is not a page gives 403; a page file gives 200 with its text; a page-named directory raises `IsADirectoryError` |
| HttpServer2.ParseClientRequest | P1/http_server2.py:73-96 | a request fails only with exit 7, `IndexError` or, for a page-named directory that was read as the target, `IsADirectoryError`; every answer starts with `HTTP/1.1 ` |
| HttpServer2.AnswerStartsWithStatus | P1/http_server2.py:126-160 | every answer the file lookup gives (200, 403 or 404) starts with `HTTP/1.1 ` |
| HttpServer3.CreateResponse | P1/http_server3.py:80-98 | a success response starts with the status line and ends with the blank line and the body; an error response is exactly the status line and one CRLF |
| HttpServer3.ErrorResponseUnterminated | P1/http_server3.py:94-98 | an error response holds no blank line |
| HttpServer3.OperandsListed | P1/http_server3.py:123-141 | the parameters give numbers exactly when every one has a `=` and a numeric value, and then one number per parameter, in order |
| HttpServer3.OperandsFirstBad | P1/http_server3.py:123-141 | otherwise the first bad parameter decides: no `=` is `IndexError`, a value that is not a number is 400 |
| HttpServer3.OperandsStop | P1/http_server3.py:123-141 | once a prefix of the parameters fails, the whole list fails the same way (the loop may return early) |
| HttpServer3.Operands | P1/http_server3.py:123-141 | numbers read from the parameters come one per parameter |
| HttpServer3.QueryResult | P1/http_server3.py:101-159 | a query is answered, starting with `HTTP/1.1 `, or raises `IndexError`, which only a `/product` target with a query can do |
| HttpServer3.ParseClientRequest | P1/http_server3.py:54-77 | a request fails only with exit 7 or `IndexError`; every answer starts with `HTTP/1.1 ` |
| HttpServer3.CalculateQueryResult | P1/http_server3.py:101-159 | the loop over the `&`-separated parameters, with its early returns, computes exactly `QueryResult`: 404 and 400 as `QueryRouting` states, then `IndexError` on the first parameter without `=`, 400 on the first value that is not a number, else 200 with every value read |
| HttpServer3.QueryRouting | P1/http_server3.py:109-120 | a target other than `/product` that does not start with `/product?` is answered with 404 Not Found; `/product`, `/product?` and any target starting with `/product??` (no query, or an empty one) are answered with 400 Bad Request |
| HttpServer3.ProductPath | P1/http_server3.py:109-110 | the text before the first `?` is `/product` exactly when the target is `/product` or starts with `/product?` |
| HttpServer3.EmptyQuery | P1/http_server3.py:116 | after `/product?`, nothing or another `?` leaves the query piece present and empty |
| HttpServer3.Params | P1/http_server3.py:123-127 | the parameters `name=value` are listed in order, one per pair |
| HttpServer3.ProductQuery | P1/http_server3.py:101-159 | `/product?n1=v1&…` is answered with 200 and the values read as numbers, in order, when every value is a number, and with 400 otherwise |
| HttpServer3.ProductParams | P1/http_server3.py:101-159 | a product query with parameters `ps` is answered by what those parameters read as |
| HttpServer3.ProductTarget | P1/http_server3.py:108-120 | `/product?` followed by parameters without `?` splits at that one `?` |
| HttpServer3.ParamsRead | P1/http_server3.py:124-127 | each `name=value` parameter gives back its value |
| HttpClient.CheckUrlCorrectness | P1/http_client.py:33-46 | a URL passes exactly when it starts with `http://`; `https://` and anything else exit with 7 |
| HttpClient.DecomposeUrl | P1/http_client.py:56-74 | decomposing a written URL gives back its host, its port (80 by default) and its path (`/` by default) |
| HttpClient.Decompose | P1/http_client.py:56-74 | decomposing fails only with `ValueError` (a port that is not an integer); a decomposed path always starts with `/` |
| HttpClient.HostThenPath | P1/http_client.py:56-74 | the text before the first `/` is the host and port, and the path is what follows |
| HttpClient.PortAfterHost | P1/http_client.py:60-65 | with no `:` in the host name, the first `:` of the host part is the first `:` of the whole rest, so the port is cut at the right place |
| HttpClient.FieldsExist | P1/http_client.py:104-108 | the header dictionary exists exactly when every header line holds a `:`; otherwise `ValueError` |
| HttpClient.FieldsHaveNames | P1/http_client.py:104-108 | every header line's name is in the dictionary |
| HttpClient.FieldsOnlyNames | P1/http_client.py:104-108 | every name in the dictionary is some header line's name |
| HttpClient.FieldsLastWins | P1/http_client.py:104-108 | each name maps to the value of the last line that carries it |
| HttpClient.ParseHttpResponse | P1/http_client.py:97-117 | the loop that fills the header dictionary, with its early failure, computes the reply `ParseResponse` defines: `IndexError` without a blank line, `ValueError` on a header line without `:`, `KeyError` without Content-Type, exit 7 when it is not `text/html`, then the code, phrase, dictionary and body |
| HttpClient.ParseResponse | P1/http_client.py:97-117 | a reply exists only for a response whose Content-Type names `text/html`; reading otherwise fails only with `IndexError`, `ValueError`, `KeyError` or exit 7 |
| HttpClient.React | P1/http_client.py:119-142 | the client follows a redirect only for a 3xx answer with a Location; it exits with 7 exactly for 400 and above and with 0 exactly for 2xx; `RedirectFollowed` and `PagePrinted` give the converse: the trimmed Location that is followed and the page that is printed |
| HttpClient.RedirectFollowed | P1/http_client.py:126-137 | a 3xx answer with a Location header is followed to that Location with surrounding whitespace trimmed |
| HttpClient.PagePrinted | P1/http_client.py:119-142 | 400 and above print the body between the markers with a newline and exit 7; 2xx print it and exit 0; a 3xx answer without Location and an answer below 200 print nothing and end normally |
| HttpClient.FieldsStop | P1/http_client.py:104-108 | once a prefix of the header lines fails, so do all of them |
| HttpClient.BodyBetweenMarkers | P1/http_client.py:145-158 | with a start marker found at `start` and the first `</html>` at `end >= start`, the body is `html[start..end + 7]`, which ends with `</html>` |
| HttpClient.MarkersFrame | P1/http_client.py:151-157 | with the start marker found at `start` and the closing marker first at `end >= start`, the slice runs exactly from `start` through that closing marker and ends with it |
| HttpClient.PageAfterPreamble | P1/http_client.py:145-158 | text before a page that holds no `<` is dropped: a doctype page closed by its only `</html>` comes out whole |
| HttpClient.PageAfterText | P1/http_client.py:151-157 | a page that starts with a start marker and ends at its only `</html>` comes out whole from behind a `<`-free preamble |
| HttpClient.FindPastPreamble | P1/http_client.py:151-156 | `find` in `preamble + s`, for a pattern that starts with `<` and a `<`-free preamble, is `find` in `s` moved by the preamble |
| HttpClient.PerformHttpGet | P1/http_client.py:7-18 | after ten redirects the client exits with 7 without a request; it never sends more requests than the redirects left; a run that sends none prints nothing and ends with exit 7 or `ValueError`; `ReplyActedOn` and `RedirectCounted` give each step below the cap |
| HttpClient.ReplyActedOn | P1/http_client.py:13-18 | below the cap, a checked URL whose answer the client stops on ends the run after one request, with that answer's output and ending |
| HttpClient.RedirectCounted | P1/http_client.py:126-137 | below the cap, a 3xx answer with a Location costs one request, and the run goes on one redirect further, on the trimmed Location |
| HttpClient.RedirectLoopStops | P1/http_client.py:126-137 | endless redirects end in exit 7 after the ten allowed ones, with one request per redirect followed |
| HttpExchange.RequestIsRead | P1/http_client.py:81 | the client's request line names its path, and both servers read that path back as the target |
| HttpExchange.FileServerAnswers | P1/http_server2.py:73-96 | the file server answers the client's request as a lookup of the requested path |
| HttpExchange.ProductServerAnswers | P1/http_server3.py:54-77 | the product server answers the client's request as a query on the requested path |
| HttpExchange.FieldRead | P1/http_client.py:107-108 | a header line `name: value` is read as that name and the value with its leading space |
| HttpExchange.FieldsAppend | P1/http_client.py:104-108 | one more header line with a `:` adds its name and value to the dictionary |
| HttpExchange.FieldsOfFour | P1/http_client.py:104-108 | four header lines give the dictionary of their four names and values |
| HttpExchange.FieldsOfTwo | P1/http_client.py:104-108 | two header lines give the dictionary of their two names and values |
| HttpExchange.PageFieldsRead | P1/http_server2.py:114-121 | the client's dictionary of the file server's success headers holds `Content-Type: text/html` |
| HttpExchange.StatusRead | P1/http_client.py:114-117 | the status line gives back its code and its phrase |
| HttpExchange.MessageRead | P1/http_client.py:97-103 | the first blank line of a message ends its header lines, which the client reads back one by one |
| HttpExchange.MessageParsed | P1/http_client.py:97-117 | a message made of a status line, header lines and a body is read back as its code, its phrase, its header dictionary and the body up to the body's first blank line |
| HttpExchange.FieldLine | P1/http_server2.py:114-121 | a header `name: value` fits on one line when neither part holds a CR |
| HttpExchange.HeadersAreLines | P1/http_server2.py:114-121 | every header the file server writes fits on one line |
| HttpExchange.ClientReadsPage | P1/http_client.py:89-117 | the client reads the file server's success answer back: code, phrase, its four header fields, and the body up to its first blank line |
| HttpExchange.ClientShowsServedPage | P1/http_client.py:139-142 | a page served by the file server that starts with its doctype, ends at its only `</html>` and holds no blank line is printed by the client, which exits with 0 |
| HttpExchange.ClientPrintsPage | P1/http_client.py:139-142 | a page sent with status 200 is printed and the client exits with 0 |
| HttpExchange.ClientFailsOnFileServerError | P1/http_client.py:110 | the file server's 403 and 404 answers make the client fail with `KeyError` |
| HttpExchange.ClientFailsOnProductServerError | P1/http_client.py:97-100 | the product server's error answers make the client fail with `IndexError` |
| HttpExchange.JsonHeadersAreLines | P1/http_server3.py:90-93 | every header the product server writes on success fits on one line |
| HttpExchange.JsonFieldsRead | P1/http_server3.py:88-93 | the client reads the product server's success headers as exactly Content-Length (the body's length), `Connection: close`, the JSON Content-Type and Date, and that Content-Type does not name `text/html` |
| HttpExchange.ClientRefusesProductAnswer | P1/http_client.py:110-112 | the product server's success answers are refused by the client with exit 7 |
| HttpExchange.ProductAnswerHead | P1/http_server3.py:80-98 | the product server's success answer, split at its first blank line, gives back its status line and four header lines, read as the dictionary of Content-Length, Connection, the JSON Content-Type and Date, and the body up to its first blank line |
| HttpExchange.FileServerErrorHead | P1/http_server2.py:110-115 | the file server's error answer, split at its blank line, gives back its status line and exactly the dictionary of Connection and Date, with an empty body |
| Codec.Int32ToBytes | P2/streamer.py:141-142 | the `!i` field of a 32-bit number is four bytes |
| Codec.BytesToInt32 | P2/streamer.py:152-153 | four bytes read as `!i` give a 32-bit signed number |
| Codec.Int32RoundTrip | P2/streamer.py:126-153 | writing then reading a 32-bit number gives it back |
| Codec.BytesRoundTrip | P2/streamer.py:126-153 | reading then writing four bytes gives them back |
| Codec.Pack | P2/streamer.py:126-142 | `struct.pack('!i??Ns')` succeeds exactly for a sequence number in the signed 32-bit range (`struct.error` otherwise) |
| Codec.Unpack | P2/streamer.py:145-153 | unpacking fails exactly on bodies shorter than the 6 header bytes; a number it reads is a signed 32-bit one |
| Codec.PackUnpack | P2/streamer.py:126-153 | packing then unpacking gives back every field |
| Codec.UnpackPack | P2/streamer.py:126-153 | a body whose flag bytes are 0 or 1 is exactly what packing its unpacked fields writes |
| Codec.Frame | P2/streamer.py:108-110 | a frame (digest, then segment) can be built exactly for a 32-bit sequence number |
| Codec.Parse | P2/streamer.py:271-291 | a datagram is accepted exactly when it holds a 16-byte checksum and a 6-byte header and the checksum is the digest of the rest; it then reads as the unpacked body, so empty, short and corrupted datagrams are dropped |
| Codec.FrameAccepted | P2/streamer.py:271-291 | every frame the sender builds passes the receiver's checks and decodes to what was sent |
| Codec.TamperedChecksumDropped | P2/streamer.py:287-291 | a frame whose checksum prefix is replaced by anything else is dropped |
| Streamer.ChunksConcat | P2/streamer.py:102-103 | the 1450-byte chunks put back together are the coalescing buffer |
| Streamer.ChunksShape | P2/streamer.py:102-103 | there are ceil(n / 1450) chunks, all of 1450 bytes but the last, which has 1 to 1450 |
| Streamer.ChunksOf3000 | P2/streamer.py:98-103 | 3000 bytes go out as 1450, 1450 and 100 bytes |
| Streamer.SendableCount | P2/streamer.py:105-116 | the number of chunks framed before a sequence number leaves the 32-bit range |
| Streamer.DataFrames | P2/streamer.py:105-116 | a flush that frames `n` chunks sends `n` frames |
| Streamer.DataFramesIndex | P2/streamer.py:106-110 | frame `i` of a flush is chunk `i` under number `start + i` |
| Streamer.StoreFramesKeys | P2/streamer.py:114 | storing a flush's frames adds exactly the new numbers to `send_buffer` |
| Streamer.StoreFramesAt | P2/streamer.py:114 | each new number maps to its own chunk's frame |
| Streamer.MarkUnackedAt | P2/streamer.py:107 | every number a flush covers is marked unacknowledged |
| Streamer.StoredAndMarked | P2/streamer.py:105-116 | every number a flush covers holds the frame sent under it and is marked unacknowledged |
| Streamer.MarkUnackedKeeps | P2/streamer.py:107 | marking numbers unacknowledged never removes an entry of `sent_ack_buffer` |
| Streamer.DataEncoderDecodes | P2/streamer.py:108-110 | a data frame for a 32-bit number is accepted by the peer as that data segment |
| Streamer.StoreFramesDecode | P2/streamer.py:114 | after a flush, every entry of `send_buffer` is still a decodable data frame for its key |
| Streamer.FlushDecodes | P2/streamer.py:102-116 | what the peer decodes from a flush is consecutive data segments whose payloads put together give the coalescing buffer back |
| Streamer.SendChunks | P2/streamer.py:105-116 | the loop sends, stores and marks the frames of the chunks that `struct.pack` accepts; the one that overflows has been marked and then raises |
| Streamer.InitialValid | P2/streamer.py:15-63 | the state after `__init__` satisfies the invariant |
| Streamer.FlushValid | P2/streamer.py:102-116 | a flush keeps the invariant |
| Streamer.NagleCheckValid | P2/streamer.py:81-123 | `run_nagle_algo` keeps the invariant |
| Streamer.SendDataValid | P2/streamer.py:65-79 | `send` keeps the invariant |
| Streamer.NagleTimerFiredValid | P2/streamer.py:60 | the coalescing timer's firing keeps the invariant |
| Streamer.Flush | P2/streamer.py:102-116 | a flush leaves the coalescing buffer as it was and moves the counter forward, never past 2^31; the `struct.error` is raised only once the counter has reached 2^31 |
| Streamer.NagleCheck | P2/streamer.py:81-123 | the check never changes the coalescing buffer; it sends nothing unless the buffer is not empty and unchanged since the previous check |
| Streamer.SendData | P2/streamer.py:65-79 | `send` appends the data to the coalescing buffer; it sends only when the grown buffer equals what the previous check remembered |
| Streamer.NagleCheckIdle | P2/streamer.py:95-96 | with an empty coalescing buffer the check changes nothing and raises nothing |
| Streamer.FlushRepeats | P2/streamer.py:95-123 | the buffer is not cleared: the check after a flush flushes the same bytes again under new numbers |
| Streamer.SendDataDefers | P2/streamer.py:118-123 | data that changes the buffer is only remembered; nothing is framed or sent until a later check sees the buffer unchanged |
| Streamer.FlushSendsBuffer | P2/streamer.py:102-116 | with no overflow, a flush sends the frames the peer decodes back into the buffer, in order, and moves the counter past them |
| Streamer.FlushStoresFrames | P2/streamer.py:105-116 | with no overflow, each frame sent is stored under its number and marked unacknowledged (`KeptForResend`) |
| Streamer.HandleSegmentValid | P2/streamer.py:293-320 | handling a checked segment keeps the invariant |
| Streamer.HandleSegment | P2/streamer.py:293-320 | handling a segment never touches `send_buffer`, the counter, the coalescing buffer or `closed` |
| Streamer.Receive | P2/streamer.py:262-326 | after `closed` is set a datagram changes nothing; a listener step never touches `send_buffer` or the counter |
| Streamer.FinAckRecorded | P2/streamer.py:293-296 | a FIN-ACK only sets `closed_ack`; nothing is sent |
| Streamer.ReceiveValid | P2/streamer.py:262-326 | one listener iteration keeps the invariant |
| Streamer.CorruptedIgnored | P2/streamer.py:287-291 | a datagram whose checksum does not match changes nothing |
| Streamer.AckRecorded | P2/streamer.py:298-300 | an ack for any number sets that number's entry, creating it if needed; nothing else changes |
| Streamer.DataBufferedOnce | P2/streamer.py:310-320 | a new data segment stores its payload and schedules one ack; a repeat schedules another ack and keeps the first payload |
| Streamer.FinAnswered | P2/streamer.py:303-307 | a FIN appends one FIN-ACK of the same number to what was sent and marks the peer as closed; nothing else changes |
| Streamer.DeliveredInOrder | P2/streamer.py:240-260 | a data frame received by a peer whose counter has reached its number is what that peer's next `recv` returns |
| Streamer.AckFiredValid | P2/streamer.py:163-177 | a delayed ack keeps the invariant |
| Streamer.AckFiredAcknowledges | P2/streamer.py:163-177 | a delayed ack sends one frame, which the peer decodes as the ack of the scheduled number, and removes that one pending ack |
| Streamer.AckFired | P2/streamer.py:163-177 | a delayed ack appends one frame to what was sent and removes one pending ack |
| Streamer.RetransmitValid | P2/streamer.py:188-210 | a retransmission firing keeps the invariant |
| Streamer.RetransmitUntilAcked | P2/streamer.py:188-210 | until the ack arrives, a firing resends exactly the stored frame, which decodes as that data segment, and changes nothing else; after the ack the entry is forgotten and nothing is sent |
| Streamer.Retransmit | P2/streamer.py:188-210 | a firing resends exactly when the connection is open and the number is present and unacknowledged; otherwise nothing is sent |
| Streamer.RetransmitAfterClose | P2/streamer.py:198-199 | after close a firing changes nothing and is not rescheduled |
| Streamer.RetransmitForgetsOnly | P2/streamer.py:200-210 | only the acknowledged branch changes `sent_ack_buffer`, and it removes exactly the firing's own number |
| Streamer.ListenerKeepsAcks | P2/streamer.py:163-177 | the listener's steps, a delayed ack and `recv` never remove an entry of `sent_ack_buffer` |
| Streamer.SenderKeepsAcks | P2/streamer.py:65-123 | a flush, the coalescing check, `send`, the waits of `close` and the FIN loop never remove an entry of `sent_ack_buffer` |
| Streamer.FlushKeeps | P2/streamer.py:102-116 | a flush never removes an entry of `sent_ack_buffer` |
| Streamer.NagleCheckKeeps | P2/streamer.py:81-123 | the coalescing check never removes an entry of `sent_ack_buffer` |
| Streamer.LateAckBlocksClose | P2/streamer.py:298-300 | an ack arriving after its number was forgotten brings the entry back, so `close`, which was free to go on, waits again |
| Streamer.DeliverValid | P2/streamer.py:240-260 | `recv` keeps the invariant |
| Streamer.Deliver | P2/streamer.py:252-260 | the counter moves on by one exactly when a payload is handed over |
| Streamer.DeliverNext | P2/streamer.py:252-260 | `recv` returns only the payload numbered by the counter; the new state is the old one with that payload removed and the counter advanced; otherwise it waits and changes nothing |
| Streamer.DeliverShiftsSending | P2/streamer.py:253-256 | delivering a payload moves the number the next flush starts from |
| Streamer.BeginCloseValid | P2/streamer.py:333-344 | the waits of `close` keep the invariant |
| Streamer.CloseStepValid | P2/streamer.py:345-364 | one pass of the FIN loop keeps the invariant |
| Streamer.BeginClose | P2/streamer.py:333-344 | going on fixes the FIN's number at the counter with no FIN sent yet; waiting changes nothing |
| Streamer.CloseStep | P2/streamer.py:345-364 | the connection ends up closed exactly when it was or the loop finishes; a pack error only comes from a number outside 32 bits |
| Streamer.CloseHandshake | P2/streamer.py:345-364 | the FIN loop ends exactly when both the peer's FIN and its FIN-ACK have arrived; until then each pass that sends, sends a FIN numbered with the close number |
| Streamer.BeginCloseWaits | P2/streamer.py:333-340 | `close` goes past its waits exactly when no sent segment awaits its ack and no coalescing timer is alive |
| Streamer.Streamer.constructor | P2/streamer.py:15-63 | the new object's fields are the initial state, which satisfies the invariant |
| Streamer.Streamer.FlushChunks | P2/streamer.py:105-116 | the loop over the chunks changes the fields as a flush does |
| Streamer.Streamer.RunNagleAlgo | P2/streamer.py:81-123 | `run_nagle_algo` changes the fields as the coalescing check does, and keeps the invariant |
| Streamer.Streamer.FlushUnchanged | P2/streamer.py:99-116 | the unchanged-buffer branch cancels the timer and flushes |
| Streamer.Streamer.Remember | P2/streamer.py:118-123 | the changed-buffer branch remembers the buffer and starts the timer, raising when it already ran |
| Streamer.Streamer.Send | P2/streamer.py:65-79 | `send` appends to the buffer and runs the check, keeping the invariant |
| Streamer.Streamer.FireNagleTimer | P2/streamer.py:60 | the timer's callback runs the check in the timer thread, after which the timer is dead |
| Streamer.Streamer.ListenerStep | P2/streamer.py:269-326 | one listener iteration changes the fields as `Receive` does, and keeps the invariant |
| Streamer.Streamer.ParseDatagram | P2/streamer.py:271-291 | the checks of the listener give the parsed segment or drop the datagram |
| Streamer.Streamer.HandlePacket | P2/streamer.py:293-320 | the four branches on the flags change the fields as `HandleSegment` does |
| Streamer.Streamer.FireAck | P2/streamer.py:163-177 | a delayed ack fires and the invariant is kept |
| Streamer.Streamer.HandlePacketRetransmission | P2/streamer.py:188-210 | one retransmission firing, keeping the invariant |
| Streamer.Streamer.RecvStep | P2/streamer.py:252-260 | one pass of the `recv` loop, keeping the invariant |
| Streamer.Streamer.WaitBeforeClose | P2/streamer.py:333-344 | the waits at the head of `close`, keeping the invariant |
| Streamer.Streamer.CloseLoopStep | P2/streamer.py:345-364 | one pass of the FIN loop, keeping the invariant |
| DistanceVector.DefaultTable | P3/distance_vector_node.py:103-104 | the default table reaches only the node itself, at cost 0, with no next hop |
| DistanceVector.LinkUpdateAligned | P3/distance_vector_node.py:38-71 | a link update keeps the neighbour list and the per-neighbour dictionaries in step |
| DistanceVector.LinkUpdate | P3/distance_vector_node.py:38-71 | the neighbour keeps a latency exactly unless it was listed and reported at -1, and then it holds the reported latency |
| DistanceVector.LinkUpdateEffect | P3/distance_vector_node.py:53-69 | every other neighbour keeps its latency, vector and time; a removed neighbour is taken off the list by `list.remove` and is gone from every dictionary; otherwise the neighbour holds the new latency, and a new one is appended with time 0 and the default table |
| DistanceVector.AcceptAligned | P3/distance_vector_node.py:74-94 | accepting a vector keeps the dictionaries in step |
| DistanceVector.Accept | P3/distance_vector_node.py:74-94 | a vector never changes the neighbours or their latencies, and changes anything only when its sender is a neighbour and its time is newer |
| DistanceVector.AcceptMonotone | P3/distance_vector_node.py:90-93 | stored times never go back, and a stale or foreign vector changes nothing |
| DistanceVector.KnownNodesMembers | P3/distance_vector_node.py:142-154 | the known nodes are exactly the destinations of the neighbours' vectors |
| DistanceVector.RelaxStep | P3/distance_vector_node.py:118-138 | one more neighbour replaces the best route exactly when it offers a route that wins the comparison |
| DistanceVector.RelaxMinimal | P3/distance_vector_node.py:118-138 | the result costs no more than the start and than any route a scanned neighbour offers |
| DistanceVector.RelaxAchieved | P3/distance_vector_node.py:210-217 | the result is the start, or exactly the route some scanned neighbour offers |
| DistanceVector.RelaxStrictFirst | P3/distance_vector_node.py:215 | with `<`, the first neighbour offering the minimal cost wins, when it beats the start |
| DistanceVector.RelaxLooseLast | P3/distance_vector_node.py:135 | with `<=`, the last neighbour offering the minimal cost wins, when it is no worse than the start |
| DistanceVector.Relax | P3/distance_vector_node.py:118-138 | when no scanned neighbour offers a route, the start is kept |
| DistanceVector.RecomputedOptimal | P3/distance_vector_node.py:186-224 | the recomputed table gives the node itself cost 0, every other node the cheapest route a neighbour offers, or `inf` when none does |
| DistanceVector.HandledTakesInfiniteRoute | P3/distance_vector_node.py:135 | the `<=` also takes a neighbour whose own cost is infinite: the cost stays `inf` but the route goes through that neighbour |
| DistanceVector.AnnounceCounts | P3/distance_vector_node.py:156-184 | a changed table is broadcast once, with the new table and the incremented sequence number; an unchanged one sends nothing |
| DistanceVector.Announce | P3/distance_vector_node.py:156-184 | a broadcast appends at most one message and keeps earlier ones; the sequence number never goes back |
| DistanceVector.AnnounceIdempotent | P3/distance_vector_node.py:156-184 | announcing the same table twice in a row is the same as announcing it once |
| DistanceVector.NextHopRecomputed | P3/distance_vector_node.py:97-101 | in a recomputed table the node itself raises `TypeError` (`int(None)`); a destination no neighbour offers a route to has next hop -1; any other hop is a neighbour offering a cheapest route |
| DistanceVector.NextHop | P3/distance_vector_node.py:97-101 | a next hop exists exactly when the destination is stored with a route whose first element is a node, and it is that node; otherwise `KeyError`, `IndexError` or `TypeError` |
| DistanceVector.DistanceVectorNode.constructor | P3/distance_vector_node.py:7-31 | a new node knows only itself, at cost 0, with sequence number 0 and no neighbours |
| DistanceVector.DistanceVectorNode.LinkHasBeenUpdated | P3/distance_vector_node.py:38-71 | the links change as `LinkUpdate` says, then the table from `handle_dv_link_update` is announced |
| DistanceVector.DistanceVectorNode.ProcessIncomingRoutingMessage | P3/distance_vector_node.py:74-94 | a newer vector from a neighbour is stored and the recomputed table announced; anything else changes nothing |
| DistanceVector.DistanceVectorNode.GetGraphNodes | P3/distance_vector_node.py:142-154 | the node list starts with the node, holds no repeats and holds exactly the known nodes |
| DistanceVector.DistanceVectorNode.BestRoute | P3/distance_vector_node.py:129-137 | the inner loop computes the relaxation over all neighbours |
| DistanceVector.DistanceVectorNode.HandleDvLinkUpdate | P3/distance_vector_node.py:106-140 | the table computed with `<=` is announced |
| DistanceVector.DistanceVectorNode.RecomputeDvTable | P3/distance_vector_node.py:186-224 | the table computed with `<` is announced |
| DistanceVector.DistanceVectorNode.CheckDvAndUpdateNeighbors | P3/distance_vector_node.py:156-184 | the given table is announced when it differs from the current one |
| LinkPaths.Link | P3/link_state_node.py:109 | the key of a link holds its two nodes, the smaller first |
| LinkPaths.LinkUnordered | P3/link_state_node.py:109 | the key of a link does not depend on the order of its two nodes, as with a `frozenset` |
| LinkPaths.AcrossIsEdge | P3/link_state_node.py:174-182 | the node across a stored link of non-negative cost is an edge of the graph |
| LinkPaths.EdgeIsAcross | P3/link_state_node.py:174-182 | every edge of the graph is found across some stored link |
| LinkPaths.PathExtend | P3/link_state_node.py:184-189 | following one more edge extends a path and adds that edge's cost |
| LinkPaths.PathCostNonNegative | P3/link_state_node.py:175 | no path costs less than nothing: negative links are never followed |
| LinkPaths.PathFirstEdge | P3/link_state_node.py:144-148 | a path's first hop is an edge out of the source |
| LinkPaths.PathHomeIsEmpty | P3/link_state_node.py:150-190 | a path that ends at its source without passing it is empty |
| LinkPaths.UnseenDrops | P3/link_state_node.py:186-189 | giving a listed node its first distance lowers the number of unseen nodes |
| LinkPaths.UnseenSame | P3/link_state_node.py:186-189 | lowering a known distance leaves the unseen nodes alone |
| LinkPaths.SumDrops | P3/link_state_node.py:186-189 | lowering the distance of a listed node lowers the sum of distances |
| LinkPaths.Walk | P3/link_state_node.py:150-190 | any path from the source either has a queued candidate no dearer than the walk so far, or ends at an expanded node whose distance is no dearer |
| LinkPaths.PoppedIsCheapest | P3/link_state_node.py:164-172 | the cheapest candidate, when it reaches the destination, is a cheapest path there |
| LinkPaths.ExhaustedUnreachable | P3/link_state_node.py:161-190 | when the queue runs dry before the destination is reached, no path leads there |
| LinkState.Put | P3/link_state_node.py:51-59 | `table[k] = v` stores the value under the key, and the keys already there keep their places at the front |
| LinkState.PutOk | P3/link_state_node.py:51-59 | storing a link between two different nodes keeps the dict well formed |
| LinkState.AdvertisementLists | P3/link_state_node.py:61-75 | the advertisement lists exactly the database: entry `i` is the `i`-th link with its cost and time, signed by the node |
| LinkState.ForwardTargets | P3/link_state_node.py:125-127 | a forwarded entry reaches every neighbour but its sender, and nobody else |
| LinkState.Forward | P3/link_state_node.py:125-127 | at most one message per neighbour, exactly one each when the sender is not a neighbour |
| LinkState.IngestOk | P3/link_state_node.py:81-141 | ingesting an entry keeps the dict well formed and only appends to what was sent |
| LinkState.Ingest | P3/link_state_node.py:102-141 | the links known afterwards are those known before plus the entry's link unless it is the node's own; what was sent is only appended to |
| LinkState.IngestEffect | P3/link_state_node.py:102-141 | the four cases in full: an own entry or a known link with no newer time changes nothing; a newer time replaces the link in place and forwards the re-signed entry to every neighbour but the sender; an unknown link is added last and its re-signed entry goes to all neighbours |
| LinkState.IngestKeepsNewest | P3/link_state_node.py:112-141 | after an entry about another node's link, the database holds that link no older than the entry, with the entry's values when it was news; other links are unchanged |
| LinkState.DuplicateIgnored | P3/link_state_node.py:112-127 | the same entry heard twice is news at most once: the repeat changes and sends nothing |
| LinkState.IngestUnordered | P3/link_state_node.py:102-112 | listing the two ends of a link in either order makes no difference |
| LinkState.IngestAllMonotone | P3/link_state_node.py:81-141 | over a whole message, stored times never go back and links are never forgotten |
| LinkState.IngestAllCovers | P3/link_state_node.py:81-141 | every entry leaves its link at least as new as the entry, unless it was the node's own |
| LinkState.IngestAll | P3/link_state_node.py:81-141 | over a whole message no link is forgotten, and every new link is that of some entry of the message that is not the node's own |
| LinkState.AdvertisementRebuilds | P3/link_state_node.py:61-141 | a node that knows none of the advertised links ends up with the advertiser's database, in the same order |
| LinkState.RebuildStep | P3/link_state_node.py:130-141 | hearing of an unknown link appends it to the dict |
| LinkState.LinkUpdateOk | P3/link_state_node.py:46-59 | a link report keeps the node sound; the neighbour is listed unless it was known and reported at -1, and the link holds the reported cost and time |
| LinkState.ScanStart | P3/link_state_node.py:164-168 | popping a candidate starts its expansion in a state that satisfies the loop invariant |
| LinkState.ScanEnd | P3/link_state_node.py:174-189 | after every link is scanned, the search invariant holds again with the candidate's node expanded |
| LinkState.ScanPush | P3/link_state_node.py:184-189 | pushing a cheaper candidate keeps the loop invariant |
| LinkState.PushedItem | P3/link_state_node.py:185-187 | the pushed candidate is a sound path that avoids the source |
| LinkState.ScanSkip | P3/link_state_node.py:174-186 | a link that gives no cheaper candidate leaves everything but the scan position unchanged |
| LinkState.RelaxLink | P3/link_state_node.py:175-189 | one iteration of the scan over the dict keeps the loop invariant |
| LinkState.Expand | P3/link_state_node.py:164-189 | expanding a candidate keeps the search invariant and lowers the termination measure |
| LinkState.PopMin | P3/link_state_node.py:6-21 | `heappop` takes a cheapest candidate by `__lt__`, the first among equals |
| LinkState.LinkStateNode.constructor | P3/link_state_node.py:24-31 | a new node has no neighbours, an empty database and has sent nothing |
| LinkState.LinkStateNode.LinkHasBeenUpdated | P3/link_state_node.py:36-78 | the neighbour list and the link entry change, then the whole database is sent to all neighbours |
| LinkState.LinkStateNode.BuildAdvertisement | P3/link_state_node.py:61-75 | the loop over the dict builds the advertisement of the database |
| LinkState.LinkStateNode.ProcessIncomingRoutingMessage | P3/link_state_node.py:81-141 | the database and the sent messages are what ingesting the message's entries in order gives |
| LinkState.LinkStateNode.HandleEntry | P3/link_state_node.py:104-141 | one entry: own links are skipped, a newer known link is stored and forwarded to the others, a new link is stored and sent to all |
| LinkState.LinkStateNode.SendToOthers | P3/link_state_node.py:125-127 | sends to every neighbour but the sender, in list order |
| LinkState.LinkStateNode.RunDijkstra | P3/link_state_node.py:150-190 | the result is None exactly when no path over links of non-negative cost reaches the destination; otherwise a path there whose cost is the path's cost and no path is cheaper |
| LinkState.LinkStateNode.GetNextHop | P3/link_state_node.py:144-148 | the next hop is the first node of a cheapest path; an unreachable destination raises `TypeError` and the node itself `IndexError` |
| Geo.CountryName | P4/helper_files/geo_helper.py:13-18 | the country comes from `country`, else `registered_country`, else `continent`: the first with an English name |
| Geo.ProvinceName | P4/helper_files/geo_helper.py:20-22 | the province is the English name of the first subdivision, only when there is one |
| Geo.ComposeLocation | P4/helper_files/geo_helper.py:27-38 | the text is the given components joined with `, ` |
| Geo.LocationTextRead | P4/helper_files/geo_helper.py:27-38 | the text is empty exactly when no component is given; otherwise it starts with the first and ends with the last, and splits back into the components when none holds a comma |
| Geo.JoinRead | P4/helper_files/geo_helper.py:27-38 | non-empty pieces join to nothing exactly when there are none; the join starts with the first piece, ends with the last, and splits back when no piece holds the separator's first character |
| Geo.IndexOf | P4/helper_files/geo_helper.py:40-43 | where a value first occurs in a list, or the length when it does not |
| Geo.UniqueMembers | P4/helper_files/geo_helper.py:40-43 | the collected list holds no repeats, holds exactly the values of the input and is no longer than it |
| Geo.UniqueOrder | P4/helper_files/geo_helper.py:40-43 | the collected values keep the order of their first occurrences |
| Geo.MapAllOk | P4/helper_files/geo_helper.py:9-38 | all the values exist exactly when every address gives one, in address order |
| Geo.MapAllFirstFailure | P4/helper_files/geo_helper.py:9-38 | a failure is that of the first address that gives no value |
| Geo.MapAllStop | P4/helper_files/geo_helper.py:9-38 | once a prefix of the addresses fails, so do all of them |
| Geo.RecordLocation | P4/helper_files/geo_helper.py:13-38 | the per-record ifs compute the location text of the record |
| Geo.LocationText | P4/helper_files/geo_helper.py:13-38 | the text is empty exactly when no component is given; it starts with the city and ends with the country when those are given |
| Geo.GetInfo | P4/helper_files/geo_helper.py:4-43 | the loop computes `Info`: the failure of the first unknown address, or the new location texts in order |
| Geo.InfoListed | P4/helper_files/geo_helper.py:4-43 | `get_info` fails with `TypeError` exactly when some address is unknown; otherwise its list holds exactly the texts of the addresses, in order of first occurrence |
| Geo.Info | P4/helper_files/geo_helper.py:4-43 | the returned list holds no repeats and no more entries than addresses |
| Geo.SearchDatabase | P4/helper_files/geo_helper.py:46-56 | the location text grown field by field is the search result |
| Geo.SearchResult | P4/helper_files/geo_helper.py:46-56 | `TypeError` exactly for an unknown address; the only other failure is `IndexError` |
| Geo.SearchLayout | P4_moore/helper_files/geo_helper.py:4-14 | a found location starts with the city and its separator, ends with the country when there is one, and with a dangling `, ` when there is not |
| Geo.SearchAgreesWithInfo | P4/helper_files/geo_helper.py:4-56 | with city, first subdivision and country all named, `search_database` and `get_info` compose the same text |
| Geo.GetGeoInformation | P4/helper_files/geo_helper.py:59-65 | the loop computes the search results for the addresses with repeats dropped |
| Geo.GeoInformationListed | P4_moore/helper_files/geo_helper.py:17-24 | `get_geo_information` fails as the first failing address does, or returns a list holding exactly the locations of the addresses, in order of first occurrence |
| Geo.GeoInformation | P4_moore/helper_files/geo_helper.py:17-24 | the returned list holds no repeats and no more entries than addresses |

## Left out

- Sockets, `select`, threads, `ThreadPoolExecutor`, `threading.Timer` and `time.sleep`. The streamer's thread events are separate steps (`Receive`, `AckFired`, `Retransmit`, `NagleTimerFired`, `Deliver`, `CloseStep`) that the model does not interleave; the 0.25 s resend delay of `close` is a parameter `resendDue`.
- `receive_socket_data` and the client's `connect`: the network is a parameter `Network` that maps a request to the reply text.
- `start_server`, `accept_message_from_client` and `receive_request` in the servers are socket loops around `parse_client_request` and are not modelled; `print` output is not modelled.
- `datetime.now()` in the responses: the date text is a parameter.
- `os.getcwd`, `os.path.exists` and `open`: the file system is a value `FileSystem` (the file texts and the directory names).
- HttpServer3.ParseClientRequest: `float()` parsing and `json.dumps` of the product are parameters `parse` and `render`; floating-point products and the JSON text are not modelled.
- Base.ParseInt: `int()` is modelled for an optional sign and ASCII digits; the whitespace and `_` separators Python also accepts are not.
- HttpServer2.CreateResponse: Content-Length is `len(content)` counted in characters of the model's string; the UTF-8 byte count is not modelled.
- Output to stderr is not modelled; stdout is kept only where the client prints a body.
- `calculate_checksum`: MD5 is a parameter `Digest`, any function returning 16 bytes; collisions are not modelled, so a tampered frame is shown dropped only when its checksum prefix is changed.
- Bytes are decoded by `decode("utf-8", "ignore")` in the client; the model works on text directly.
- LinkState.PopMin: ties between candidates of equal cost follow list order, not the order `heapq` would give them; the proved properties hold for any cheapest choice.
- DistanceVector.DistanceVectorNode.GetGraphNodes: the iteration order of a neighbour's inner dictionary is not fixed by the model; the list is proved to hold exactly the known nodes without repeats, not a particular order.
- LinkState.LinkStateNode.ProcessIncomingRoutingMessage: an entry whose two nodes are the same is excluded by its precondition, because the source would store a one-element `frozenset` and fail when unpacking it later; the order in which a `frozenset`'s two nodes are listed in an advertisement is fixed to the smaller first.
- LinkState.LinkStateNode.LinkHasBeenUpdated: requires the neighbour to differ from the node itself, for the same reason.
- DistanceVector: node names are `int`s standing for the `str(node)` keys, and the JSON encoding of messages is not modelled.
- `load_geo_information` (opening the MaxMind file) is not modelled: the reader is a parameter `Lookup`. A place without a `names` key, which would raise `KeyError`, is not modelled.
- `P4/scan.py` and `P4/report.py`, which call the geo helpers, are not part of this model.
