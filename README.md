# WiCaSa core, modelled in Dafny

WiCaSa crawls a Wikipedia category tree, collects the edit history of the articles it
finds, keeps the edits made by anonymous (IP-address) contributors, geolocates those
addresses and draws them on a map. This project models the sequential core of that
pipeline and proves what it does:

- `Dedup` (`dedup.dfy`): `remove_duplicates`, order-preserving de-duplication.
- `CategoryCrawl` (`category_crawl.dfy`): `get_all_all_articles`, the depth-bounded
  category crawl. The worker threads become one worklist loop that takes queued
  `(title, depth)` items in an arbitrary order. A recursive function (`CrawlTitle` /
  `CrawlMembers`) specifies what gets written to the article log. The loop is proved to
  write exactly that, up to order.
- `RevisionHistory` (`revision_history.dfy`): `get_revision_history`. The `continue`
  pagination is a loop over the request parameters. The optional `ip_only` filter appends
  each kept user to the IP log. The article loop takes the articles in an arbitrary order
  and is proved to produce one entry per article that completes.
- `IpData` (`ip_data.dfy`): `is_valid_ip`, `refine_ip_addresses`, and the 1000-address
  chunking and result accumulation of `batch_ipapi`.
- `IpMap` (`ip_map.dfy`): the non-geographic part of `generate_ip_map`:
  - counting the lines of the IP file;
  - turning the three accepted shapes of geolocation JSON into one IP-to-record mapping;
  - choosing which IPs get a map row;
  - choosing the boundary layer for the administrative level.
- `Sequences`, `Text` and `Logs` hold shared definitions:
  - duplicate freedom, subsequences, filtering and first occurrences;
  - Python's `strip`, `split`, `isdigit`/`int`, `str` of an integer and `endswith`;
  - an append-mode log file (`Logs.LineLog`, a class whose `lines` field grows).

Everything outside the program is a parameter:
- The MediaWiki listing API is `ListingApi`, from `cmtitle` to a reply or a failure.
- The revision API is `RevisionApi`, from request parameters to a reply, or `None` when
  the request raises.
- `ipaddress.ip_address` is a predicate `parse`.
- The ipinfo batch endpoint is `post`.
- The float parsing of a location string is `parseLoc`.
- The contents of files are sequences of lines.

Where the source's docstrings promise more than the code does, the model follows the
code:
- `get_all_all_articles` is documented (`mediawiki_request.py:42-45`) to return all
  articles of the category and its subcategories. It returns its `output` list
  (line 95), which nothing fills, so the result is always `[]`. The titles exist only in
  the log.
- `get_articles_in_category` is documented (lines 23-25) to return the articles of a
  category. It returns the title of every member (line 38), subcategories and titles
  under other namespaces included. The crawl tests only the `Category:` prefix, so every
  other title is written, whatever its prefix.
- `get_revision_history` is documented (lines 105-109) to return the revisions within a
  time range. The window is only passed to the API as `rvstart`/`rvend` (lines 127-128);
  the code filters nothing by time.

Other behaviours of the code that the model keeps:
- Every member is queued one level deeper, and the depth check comes first when the
  item is dequeued (lines 62-70). So a plain title listed one level past `max_depth` is
  never written.
- A failure listing the seed category (line 49) is outside the `try` and leaves
  `get_all_all_articles`. Failures listing subcategories are caught and drop the item.
- An article whose requests raise gets no entry at all, not an empty one.
- IP filtering happens only with `ip_only=True`; the default is `False`.

## Model

| member | source | states |
|---|---|---|
| Dedup.RemoveDuplicates | mediawiki_request.py:97-102 | The result is the first occurrence of each element, in input order. It has no duplicates, holds exactly the input's elements, and is a subsequence of the input. |
| Sequences.FirstOccurrencesIdempotent | mediawiki_request.py:97-102 | De-duplicating twice gives the same list as de-duplicating once. |
| Sequences.FirstOccurrencesIsSubseq | mediawiki_request.py:102 | The comprehension keeps elements in input order and adds nothing. |
| Sequences.FirstOccurrencesPrefix | mediawiki_request.py:97-102 | Each element is kept at its first occurrence: de-duplicating a prefix of the list gives a prefix of the result. |
| CategoryCrawl.Titles | mediawiki_request.py:38 | The titles are those of the members, one per member, in order. The result is absent (a KeyError) exactly when some member has no `title`. |
| CategoryCrawl.SubcategoryQuery | mediawiki_request.py:30 | Stripping `Category:` from a queued title and letting the listing put it back queries that very title. |
| CategoryCrawl.CrawlTitleWritesNoCategory | mediawiki_request.py:65-72 | A title beginning with `Category:` is never written to the article log, at any depth. |
| CategoryCrawl.CrawlMembersWritesNoCategory | mediawiki_request.py:65-72 | No crawl of a list of members writes a `Category:` title. |
| CategoryCrawl.MembersWithinDepthWritten | mediawiki_request.py:62-72 | A non-category title listed k times within the depth bound is written at least k times: there is no visited set. |
| CategoryCrawl.CrawlTitleMonotone | mediawiki_request.py:62-63 | Raising `max_depth` never removes a written title. |
| CategoryCrawl.CrawlMembersMonotone | mediawiki_request.py:62-63 | The same for a list of members. |
| CategoryCrawl.ExampleListings | mediawiki_request.py:22-39 | On a small category graph, each listing returns its members' titles. |
| CategoryCrawl.ExampleLastLevel | mediawiki_request.py:62-72 | At the last level a plain title is written. A category there is listed, but its members land one level past the bound and write nothing. |
| CategoryCrawl.ExampleRepeatedTitles | mediawiki_request.py:49-72 | A title reachable along two paths is written twice. A category that lists itself is cut off only by the depth bound. |
| CategoryCrawl.Expand | mediawiki_request.py:61-80 | One worker iteration, case by case. Past the depth bound it writes and queues nothing. A plain title is appended to the log and nothing is queued. A category writes nothing; when its listing succeeds, every member is queued in listing order one level deeper, and when it fails, nothing is queued. As a bag, the appended lines plus what the children will write are the item's crawl specification, and the children account for all remaining work. |
| CategoryCrawl.GetAllAllArticles | mediawiki_request.py:41-95 | It raises exactly when listing the seed category fails, and then leaves the log unchanged. Otherwise it returns `[]`, keeps the old log lines, and appends exactly the crawl specification's titles, up to order, with the seed's members starting at depth 1. |
| RevisionHistory.KeptMembers | mediawiki_request.py:141-150 | From one page, `ip_only` keeps exactly the revisions whose user parses as an IP address; without it, every revision is kept. |
| RevisionHistory.ReplyKeptCharacterised | mediawiki_request.py:138-151 | A revision is kept from a response exactly when it is on one of its pages and, with `ip_only`, its user parses as an IP. A revision without `user` (read as `''`) is never kept under `ip_only`. |
| RevisionHistory.Requests | mediawiki_request.py:134-153 | The requests start from the given parameters. Each next one is the previous one overlaid with the response's `continue`, whose keys win. They stop exactly at a response without `continue` or at a request that raises. |
| RevisionHistory.BoundIrrelevant | mediawiki_request.py:134-153 | The pagination outcome does not depend on which bound on the number of requests is used to reason about it. |
| RevisionHistory.PaginateReturns | mediawiki_request.py:134-153 | An article's revisions are returned exactly when no request raises. |
| RevisionHistory.PaginateRevisions | mediawiki_request.py:134-153 | Returned revisions are the kept revisions of the responses, concatenated in request order. |
| RevisionHistory.PaginateLog | mediawiki_request.py:141-153 | The IP log gets the kept users of every response that came back, in request order, even when a later request raises. |
| RevisionHistory.PaginateIpOnly | mediawiki_request.py:141-151 | With `ip_only`, every logged line and every returned revision's user is an IP address. Without it, nothing is logged. |
| RevisionHistory.FilterIpRevisions | mediawiki_request.py:141-150 | The filter keeps the IP-user revisions in order and appends each kept user to the IP log in the same order. |
| RevisionHistory.CollectPages | mediawiki_request.py:138-151 | Walking the pages of one response collects each page's kept revisions in page order and logs their users. |
| RevisionHistory.FetchArticleRevisions | mediawiki_request.py:122-153 | The fetch loop returns the revisions pagination specifies, or nothing when a request raises. In both cases it appends exactly the lines pagination specifies. |
| RevisionHistory.FailureIgnoresFilter | mediawiki_request.py:134-157 | Whether an article's fetch raises does not depend on `ip_only` or on the IP parser. |
| RevisionHistory.OneEntryPerCompletedArticle | mediawiki_request.py:155-157 | Each article whose requests all come back gets exactly one `{title, revisions}` entry, in list order. Any other article gets none. |
| RevisionHistory.GetRevisionHistory | mediawiki_request.py:104-178 | Every article is fetched once, in any order. Up to order, the returned entries and the appended IP-log lines are those of the specification, and lines already in the log stay. |
| RevisionHistory.HistoryLogIps | mediawiki_request.py:141-151 | Over a whole run with `ip_only`, every IP-log line is an IP address. Without `ip_only`, the run logs nothing. |
| RevisionHistory.HistoryEntriesIps | mediawiki_request.py:141-155 | With `ip_only`, every revision in every returned entry has a user that parses as an IP address. |
| Logs.LineLog.Append | mediawiki_request.py:72 | Writing a line appends it to the log and keeps everything already there. |
| Text.Split | IP_Data.py:37 | `split('.')` gives one more part than there are dots, and no part contains a dot. |
| Text.JoinSplit | IP_Data.py:37 | Joining the parts with the separator gives the string back. |
| Text.StripIsSlice | IP_Data.py:22 | `strip()` removes only whitespace, and only from the two ends. |
| Text.StripEmpty | mapping.py:27 | A line strips to the empty string exactly when it is all whitespace. |
| IpData.IsValidIp | IP_Data.py:32-46 | The result is true exactly when the address splits on `.` into four parts, each a non-empty digit string of value at most 255. The model never raises. |
| IpData.ValidIpIsDottedQuad | IP_Data.py:37-43 | The accepted addresses are exactly four such octets joined by dots. |
| IpData.OctetsMakeValidIp | IP_Data.py:40-43 | Any four octets joined by dots are accepted. |
| IpData.LeadingZerosAccepted | IP_Data.py:41 | `001.2.3.4` is accepted: leading zeros are allowed. |
| IpData.MalformedPartsRejected | IP_Data.py:41 | An empty part, a signed part, a space-padded part and `256` are not octets. |
| IpData.MalformedPartRejectsAddress | IP_Data.py:40-42 | An address with any such part is rejected. |
| IpData.SetToSeq | IP_Data.py:22 | `list(set)` holds each element of the set exactly once. |
| IpData.KeepValid | IP_Data.py:25 | The comprehension keeps exactly the valid addresses and keeps duplicate freedom. |
| IpData.RefineIpAddresses | IP_Data.py:13-30 | The result has no duplicates. Every element is stripped and valid. As a set it equals the stripped lines that are valid. An unreadable file gives `[]`. |
| IpData.ChunkSizes | IP_Data.py:54 | There are ceil(n/1000) chunks: (chunks - 1) · 1000 < n <= chunks · 1000. Every chunk is non-empty and at most 1000 long, and every chunk but the last is exactly 1000 long. |
| IpData.ChunkingDetermined | IP_Data.py:54 | Any split of the list into pieces that concatenate back to it, each non-empty and at most 1000 long, all but the last exactly 1000, is the chunking of `batch_ipapi`. |
| IpData.FlattenChunks | IP_Data.py:54 | The chunks concatenate back to the list. |
| IpData.BatchOutcomeCharacterised | IP_Data.py:52-69 | When every post answers, there is one body per chunk, in chunk order. Otherwise the first failed post decides: an HTTP or JSON error returns `[]` and discards earlier bodies, and any other failure raises. |
| IpData.BatchIpapi | IP_Data.py:48-69 | The loop's outcome is the one characterised above. |
| IpMap.NonBlank | mapping.py:27 | Every counted line is stripped and non-empty. |
| IpMap.IpCounts | mapping.py:27 | Every key of the counter has a count. |
| IpMap.IpCountsDomain | mapping.py:27 | A string is counted exactly when some line strips to it and is not blank. |
| IpMap.IpCountsKeys | mapping.py:27 | The counter's keys are the stripped non-blank lines, in order of first occurrence. |
| IpMap.IpCountsCounts | mapping.py:27 | Each key's count is the number of lines that strip to it. Blank lines contribute nothing. |
| IpMap.MergeDomain | mapping.py:40-42 | Merging batch responses: a key is present exactly when some batch has it. |
| IpMap.MergeLastWins | mapping.py:40-42 | A merged key takes its value from the last batch that has it. |
| IpMap.IndexRaises | mapping.py:45-47 | Indexing a record list raises (unhashable key) exactly when some object's `ip` is a list or an object. |
| IpMap.IndexDomain | mapping.py:43-47 | When indexing does not raise, an address is present exactly when some record has it as its `ip` string. Non-objects and objects without `ip` are ignored. |
| IpMap.IndexLastWins | mapping.py:43-47 | An indexed address maps to the last record that has it as its `ip` string. |
| IpMap.NormaliseMapping | mapping.py:34-47 | The mapping loop: an object is used unchanged; a non-empty list of batch responses is merged; any other list is indexed by `ip`; any other JSON gives the empty mapping. |
| IpMap.RowOfCharacterised | mapping.py:53-61 | For one IP: a truthy record that is not an object raises (no `get`). Otherwise the IP gets a row exactly when its record is a non-empty object whose `loc` is a non-empty string that parses, and the row carries the IP, its count and the parsed location. |
| IpMap.RowsRaise | mapping.py:52-54 | The row loop raises exactly when some counted IP has a truthy non-object record. |
| IpMap.RowsInCounterOrder | mapping.py:52-61 | The rows follow the counter's order. |
| IpMap.RowsSelectLocated | mapping.py:52-61 | A counted IP has a row exactly when its record is located. |
| IpMap.RowsContents | mapping.py:52-61 | Every row is a counted, located IP with its count and its parsed location. |
| IpMap.BuildRows | mapping.py:51-61 | The row loop computes the rows characterised above. |
| IpMap.MapRowsMeaning | mapping.py:27-61 | End to end: an address gets a row exactly when some line of the IP file strips to it and its record is located. The row's count is the number of such lines. |
| IpMap.LayerTestSubsumed | mapping.py:74-75 | The `_<level>` suffix test adds nothing to the `<level>` suffix test. |
| IpMap.SelectLayer | mapping.py:75-77 | The chosen layer is the first name in listing order that ends with `str(admin_level)`. There is none exactly when no name matches. A chosen name is never empty, so `if not layer_name` is the no-match case. |
| IpMap.GenerateIpMap | mapping.py:27-77 | The stages end as follows. An unhashable `ip` raises. A truthy non-object record raises. No rows returns before any drawing. No matching layer raises ValueError. Otherwise drawing proceeds with the specified non-empty rows and the first matching layer. |

## Left out

- Threads, `Queue`, `get(timeout=2)`, `task_done`/`join`, and the `while not queue.empty()` check-then-get race: each phase is one sequential loop that takes queued work in an arbitrary order. Races are not modelled: a worker leaving early, or a blocked `get`.
- GetAllAllArticles, MembersWithinDepthWritten, ExampleRepeatedTitles: the listing API is a fixed function of the queried title. A category listed twice, along two paths or round a cycle, therefore succeeds or fails the same way each time. In the source every listing is a fresh HTTP request (`mediawiki_request.py:68`), and a transient failure of one of them is not modelled. The same holds for the revision API: a repeated request gets the same answer.
- GetAllAllArticles: the log contents are stated up to order (as a bag), because thread interleaving makes the order of the lines nondeterministic.
- GetRevisionHistory: the entries and the IP log are stated up to order for the same reason. The IP log is written article by article, not line-interleaved across articles.
- GetRevisionHistory: requires a common bound `n` within which every article's pagination ends. The source loops forever when the API keeps sending `continue`. The bound is a proof device only; `BoundIrrelevant` shows the outcome does not depend on it.
- FetchArticleRevisions: requires the same bound, for the same reason.
- HTTP (`requests.get`, `requests.post`): the API answers are parameters. A response that is not JSON, is not shaped as expected, or has a malformed `continue` counts as a request that raises. What such a response's earlier pages logged before the exception is not modelled.
- File I/O: the article log and the IP log are `Logs.LineLog` objects. The IP and JSON files are sequences of lines and a parsed `Json` value. A file that cannot be opened in `generate_ip_map` is not modelled. `read_existing_articles` is not modelled (it is a file read).
- `CIDRIP` and `ipapi`: thin wrappers over `ipaddress.ip_network(...).hosts()` and one `requests.post`.
- `ipaddress.ip_address` itself: it is an uninterpreted predicate, apart from rejecting `''`. It accepts IPv6, so it is not identified with `is_valid_ip`.
- IsValidIp: `str.isdigit` is modelled on ASCII digits only. Python also accepts other Unicode digits, where `int()` may succeed or raise (and an exception gives False).
- Text.Strip: the whitespace set is the fixed list of characters in `Text.IsSpace`.
- IpMap.Json: JSON numbers are integers. Floating-point values matter only to truthiness, which the model keeps for integers.
- IpMap.RecordKey: a record whose `ip` is a number, boolean or null is dropped. In the source it becomes a key that no IP string can look up. It changes only the printed mapping size.
- IpMap.RowOf: the float parsing of `loc` (`map(float, loc.split(','))`) is the parameter `parseLoc`. A `loc` that is not a string is skipped, as the `try` does.
- Everything in `generate_ip_map` after the layer choice: reading the layer, CRS conversion, the spatial join, aggregation and the folium map are GIS libraries and floating-point code. So is the code in `remapping.py`.
- `main.py`: orchestration only. Its namespace "skip" loop only prints and filters nothing.
- `print` output everywhere.
