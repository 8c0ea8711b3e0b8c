/** The pure parts of the IP tools: dotted-quad validation, the refinement of a file of
    IP lines into a list of distinct valid addresses, and the batching of that list into
    requests of at most 1000 addresses. */
module IpData {
  import opened Sequences
  import opened Text

  // ----- is_valid_ip -----

  /** One part of a dotted quad: digits only, of value at most 255; leading zeros are
      allowed. */
  predicate Octet(part: string) {
    IsDigitString(part) && DecimalValue(part) <= 255
  }

  /** What `is_valid_ip` accepts: exactly four dot-separated parts, each an octet. */
  predicate ValidIp(ip: string) {
    var parts := Split(ip, '.');
    |parts| == 4 && forall k :: 0 <= k < 4 ==> Octet(parts[k])
  }

  /** `is_valid_ip(ip)`: the part count is checked first, then the parts in order, and
      the first bad part answers False. */
  method IsValidIp(ip: string) returns (valid: bool)
    ensures valid <==> ValidIp(ip)
  {
    var parts := Split(ip, '.');
    if |parts| != 4 {
      return false;
    }
    for k := 0 to 4
      invariant forall m :: 0 <= m < k ==> Octet(parts[m])
    {
      if !IsDigitString(parts[k]) || !(0 <= DecimalValue(parts[k]) <= 255) {
        return false;
      }
    }
    return true;
  }

  /** The addresses `is_valid_ip` accepts are exactly the four octets joined by dots. */
  lemma ValidIpIsDottedQuad(ip: string)
    ensures ValidIp(ip) <==>
            exists parts :: |parts| == 4 && (forall k :: 0 <= k < 4 ==> Octet(parts[k])) &&
                            ip == Join(parts, '.')
  {
    if ValidIp(ip) {
      JoinSplit(ip, '.');
    }
    if exists parts :: |parts| == 4 && (forall k :: 0 <= k < 4 ==> Octet(parts[k])) && ip == Join(parts, '.') {
      var parts :| |parts| == 4 && (forall k :: 0 <= k < 4 ==> Octet(parts[k])) && ip == Join(parts, '.');
      assert forall k :: 0 <= k < 4 ==> '.' !in parts[k];
      SplitJoin(parts, '.');
    }
  }

  lemma OctetHasNoDot(part: string)
    requires Octet(part)
    ensures '.' !in part
  {
    forall k | 0 <= k < |part|
      ensures part[k] != '.'
    {
      assert IsDigit(part[k]);
    }
  }

  /** An address built from four octets is valid, whatever their leading zeros. */
  lemma OctetsMakeValidIp(a: string, b: string, c: string, d: string)
    requires Octet(a) && Octet(b) && Octet(c) && Octet(d)
    ensures ValidIp(a + "." + b + "." + c + "." + d)
  {
    OctetHasNoDot(a);
    OctetHasNoDot(b);
    OctetHasNoDot(c);
    OctetHasNoDot(d);
    DottedAssoc(a, b, c, d);
    SplitDottedQuad(a, b, c, d);
  }

  lemma SplitDottedQuad(a: string, b: string, c: string, d: string)
    requires '.' !in a && '.' !in b && '.' !in c && '.' !in d
    ensures Split(a + ['.'] + (b + ['.'] + (c + ['.'] + d)), '.') == [a, b, c, d]
  {
    var cd := c + ['.'] + d;
    var bcd := b + ['.'] + cd;
    SplitWithoutSep(d, '.');
    SplitFirstPart(c, '.', d);
    assert Split(cd, '.') == [c, d];
    SplitFirstPart(b, '.', cd);
    assert Split(bcd, '.') == [b, c, d];
    SplitFirstPart(a, '.', bcd);
  }

  lemma DottedAssoc(a: string, b: string, c: string, d: string)
    ensures a + "." + b + "." + c + "." + d == a + ['.'] + (b + ['.'] + (c + ['.'] + d))
  {
  }

  lemma OctetExamples()
    ensures Octet("001") && Octet("2") && Octet("3") && Octet("4")
  {
    assert DecimalValue("001") == 1 by {
      assert "001"[..2] == "00" && "00"[..1] == "0" && "0"[..0] == "";
    }
    assert "2"[..0] == "" && "3"[..0] == "" && "4"[..0] == "";
  }

  /** Leading zeros are accepted. */
  lemma LeadingZerosAccepted()
    ensures ValidIp("001.2.3.4")
  {
    OctetExamples();
    OctetsMakeValidIp("001", "2", "3", "4");
    assert "001" + "." + "2" + "." + "3" + "." + "4" == "001.2.3.4";
  }

  /** A part that is empty, signed or padded with a space is not an octet, and neither is
      a number above 255. */
  lemma MalformedPartsRejected()
    ensures !Octet("") && !Octet("+1") && !Octet("-1") && !Octet(" 1") && !Octet("1 ")
    ensures !Octet("256")
  {
    assert !IsDigit('+') && !IsDigit('-') && !IsDigit(' ');
    assert "+1"[0] == '+' && "-1"[0] == '-' && " 1"[0] == ' ' && "1 "[1] == ' ';
    assert DecimalValue("256") == 256 by {
      assert "256"[..2] == "25" && "25"[..1] == "2" && "2"[..0] == "";
    }
  }

  /** An address with an empty part, a signed or space-padded part, or a part above 255
      is rejected. */
  lemma MalformedPartRejectsAddress(ip: string, k: nat)
    requires k < |Split(ip, '.')|
    requires Split(ip, '.')[k] in {"", "+1", "-1", " 1", "1 ", "256"}
    ensures !ValidIp(ip)
  {
    MalformedPartsRejected();
  }

  // ----- refine_ip_addresses -----

  /** `list(some_set)`: the elements of a set, each once, in an order the model leaves
      open. */
  method SetToSeq(s: set<string>) returns (r: seq<string>)
    ensures NoDup(r)
    ensures forall x :: x in r <==> x in s
    ensures |r| == |s|
  {
    r := [];
    var pending := s;
    while pending != {}
      invariant NoDup(r)
      invariant forall x :: x in r ==> x in s && x !in pending
      invariant forall x :: x in s ==> x in r || x in pending
      invariant pending <= s
      invariant |r| + |pending| == |s|
      decreases |pending|
    {
      var x :| x in pending;
      r := r + [x];
      pending := pending - {x};
    }
  }

  /** `[ip for ip in ip_addresses if is_valid_ip(ip)]`. */
  method KeepValid(ipAddresses: seq<string>) returns (valid: seq<string>)
    ensures forall x :: x in valid <==> x in ipAddresses && ValidIp(x)
    ensures NoDup(ipAddresses) ==> NoDup(valid)
  {
    valid := [];
    for k := 0 to |ipAddresses|
      invariant NoDup(ipAddresses) ==> NoDup(valid)
      invariant forall x :: x in valid <==> x in ipAddresses[..k] && ValidIp(x)
    {
      assert ipAddresses[..k + 1] == ipAddresses[..k] + [ipAddresses[k]];
      assert NoDup(ipAddresses) ==> ipAddresses[k] !in ipAddresses[..k];
      var ok := IsValidIp(ipAddresses[k]);
      if ok {
        valid := valid + [ipAddresses[k]];
      }
    }
    assert ipAddresses[..|ipAddresses|] == ipAddresses;
  }

  /** `refine_ip_addresses`: the file's lines, stripped, without duplicates, keeping the
      valid addresses; a file that cannot be read gives the empty list. */
  method RefineIpAddresses(file: Option<seq<string>>) returns (valid: seq<string>)
    ensures NoDup(valid)
    ensures forall k :: 0 <= k < |valid| ==> ValidIp(valid[k]) && Strip(valid[k]) == valid[k]
    ensures file.Some? ==>
              forall x :: x in valid <==> ValidIp(x) && exists l :: l in file.value && Strip(l) == x
    ensures file.None? ==> valid == []
  {
    if file.None? {
      return [];
    }
    var lines := file.value;
    var stripped := set l | l in lines :: Strip(l);
    var ipAddresses := SetToSeq(stripped);
    valid := KeepValid(ipAddresses);
    forall k | 0 <= k < |valid|
      ensures Strip(valid[k]) == valid[k]
    {
      assert valid[k] in stripped;
      var l :| l in lines && Strip(l) == valid[k];
      StripIdempotent(l);
    }
  }

  // ----- batch_ipapi -----

  const BatchSize: nat := 1000

  /** `[ip_list[i:i + 1000] for i in range(0, len(ip_list), 1000)]`; the last slice is
      cut short by the end of the list. */
  function Chunks(ipList: seq<string>): seq<seq<string>>
  {
    seq((|ipList| + BatchSize - 1) / BatchSize,
        i requires 0 <= i < (|ipList| + BatchSize - 1) / BatchSize =>
          ipList[i * BatchSize .. if (i + 1) * BatchSize <= |ipList| then (i + 1) * BatchSize else |ipList|])
  }

  /** There are as many chunks as it takes to hold the list 1000 at a time: every chunk
      is non-empty and at most 1000 long, and every chunk but the last is exactly 1000
      long. */
  lemma ChunkSizes(ipList: seq<string>)
    ensures (|Chunks(ipList)| - 1) * BatchSize < |ipList| <= |Chunks(ipList)| * BatchSize
    ensures forall i :: 0 <= i < |Chunks(ipList)| ==> 0 < |Chunks(ipList)[i]| <= BatchSize
    ensures forall i :: 0 <= i < |Chunks(ipList)| - 1 ==> |Chunks(ipList)[i]| == BatchSize
  {
    var chunks := Chunks(ipList);
    assert |chunks| == (|ipList| + BatchSize - 1) / BatchSize;
    forall i | 0 <= i < |chunks|
      ensures 0 < |chunks[i]| <= BatchSize
      ensures i < |chunks| - 1 ==> |chunks[i]| == BatchSize
    {
      assert i * BatchSize < |ipList| by {
        assert i < (|ipList| + BatchSize - 1) / BatchSize;
      }
      if i < |chunks| - 1 {
        assert (i + 1) * BatchSize <= |ipList| by {
          assert i + 1 < (|ipList| + BatchSize - 1) / BatchSize;
        }
      }
    }
  }

  /** Chunking loses nothing and reorders nothing. */
  lemma FlattenChunks(ipList: seq<string>)
    ensures Flatten(Chunks(ipList)) == ipList
  {
    FlattenFrom(ipList, 0);
  }

  /** The chunks from index `i` on cover the list from `i * 1000` on. */
  lemma {:induction false} FlattenFrom(ipList: seq<string>, i: nat)
    requires i <= |Chunks(ipList)|
    ensures i * BatchSize <= |ipList| || i == |Chunks(ipList)|
    ensures Flatten(Chunks(ipList)[i..]) == if i * BatchSize <= |ipList| then ipList[i * BatchSize..] else []
    decreases |Chunks(ipList)| - i
  {
    var chunks := Chunks(ipList);
    ChunkSizes(ipList);
    if i == |chunks| {
      assert chunks[i..] == [];
      if i * BatchSize <= |ipList| {
        assert |ipList| <= i * BatchSize by {
          assert (|ipList| + BatchSize - 1) / BatchSize == i;
        }
        assert ipList[i * BatchSize..] == [];
      }
    } else {
      FlattenFrom(ipList, i + 1);
      assert chunks[i..][1..] == chunks[i + 1..];
      var end := if (i + 1) * BatchSize <= |ipList| then (i + 1) * BatchSize else |ipList|;
      assert i * BatchSize < |ipList| by {
        assert i < (|ipList| + BatchSize - 1) / BatchSize;
      }
      if (i + 1) * BatchSize <= |ipList| {
        assert ipList[i * BatchSize..] == ipList[i * BatchSize .. end] + ipList[end..];
      } else {
        assert i + 1 == |chunks| by {
          assert (|ipList| + BatchSize - 1) / BatchSize <= i + 1;
        }
        assert ipList[i * BatchSize..] == ipList[i * BatchSize .. end];
      }
    }
  }

  /** The slice bounds of chunk `i` of a list of length `n`. */
  function ChunkEnd(i: nat, n: nat): nat {
    if (i + 1) * BatchSize <= n then (i + 1) * BatchSize else n
  }

  /** Any split of a list into pieces of at most 1000, all but the last exactly 1000,
      is the one `batch_ipapi` makes: these properties determine the chunks. */
  lemma ChunkingDetermined(cs: seq<seq<string>>, ipList: seq<string>)
    requires Flatten(cs) == ipList
    requires forall i :: 0 <= i < |cs| ==> 0 < |cs[i]| <= BatchSize
    requires forall i :: 0 <= i < |cs| - 1 ==> |cs[i]| == BatchSize
    ensures cs == Chunks(ipList)
  {
    SlicesOfPieces(cs, ipList);
    var chunks := Chunks(ipList);
    assert |chunks| == |cs|;
    forall i | 0 <= i < |cs|
      ensures cs[i] == chunks[i]
    {
      assert i < (|ipList| + BatchSize - 1) / BatchSize;
    }
  }

  /** Pieces of 1000 with a shorter last one sit at the slices `batch_ipapi` takes. */
  lemma {:induction false} SlicesOfPieces(cs: seq<seq<string>>, ipList: seq<string>)
    requires Flatten(cs) == ipList
    requires forall i :: 0 <= i < |cs| ==> 0 < |cs[i]| <= BatchSize
    requires forall i :: 0 <= i < |cs| - 1 ==> |cs[i]| == BatchSize
    ensures |cs| == (|ipList| + BatchSize - 1) / BatchSize
    ensures forall i :: 0 <= i < |cs| ==> i * BatchSize <= ChunkEnd(i, |ipList|) <= |ipList| &&
                                           cs[i] == ipList[i * BatchSize .. ChunkEnd(i, |ipList|)]
  {
    if cs != [] {
      var c, rest := cs[0], cs[1..];
      var tail := Flatten(rest);
      assert ipList == c + tail;
      if rest == [] {
        assert tail == [];
        assert ipList[0 .. ChunkEnd(0, |ipList|)] == c;
      } else {
        assert |c| == BatchSize;
        SlicesOfPieces(rest, tail);
        assert tail == ipList[BatchSize..];
        forall i | 0 <= i < |cs|
          ensures i * BatchSize <= ChunkEnd(i, |ipList|) <= |ipList|
          ensures cs[i] == ipList[i * BatchSize .. ChunkEnd(i, |ipList|)]
        {
          if i == 0 {
            assert ipList[0 .. ChunkEnd(0, |ipList|)] == c;
          } else {
            assert cs[i] == rest[i - 1];
            assert ChunkEnd(i, |ipList|) == BatchSize + ChunkEnd(i - 1, |tail|);
            assert tail[(i - 1) * BatchSize .. ChunkEnd(i - 1, |tail|)] ==
                   ipList[i * BatchSize .. ChunkEnd(i, |ipList|)];
          }
        }
      }
    }
  }

  /** How one `requests.post` to the batch endpoint ends: a decoded JSON body, an HTTP
      error status, a body that is not JSON (both caught by `batch_ipapi`), or another
      exception, which leaves `batch_ipapi`. */
  datatype PostReply<R> = Answered(body: R) | HttpError | BadJson | OtherFailure

  /** How the posts for a run of chunks go: all answer, with these bodies in order; or
      the first that does not answer is an HTTP or JSON error; or it is another failure. */
  datatype Posted<R> = AllAnswered(bodies: seq<R>) | Discarded | Escaped

  function PostAll<R>(post: seq<string> -> PostReply<R>, chunks: seq<seq<string>>): Posted<R>
  {
    if chunks == [] then AllAnswered([])
    else
      match post(chunks[0])
      case Answered(body) => Prepend([body], PostAll(post, chunks[1..]))
      case HttpError => Discarded
      case BadJson => Discarded
      case OtherFailure => Escaped
  }

  function Prepend<R>(bodies: seq<R>, rest: Posted<R>): Posted<R> {
    match rest
    case AllAnswered(more) => AllAnswered(bodies + more)
    case Discarded => Discarded
    case Escaped => Escaped
  }

  /** What `batch_ipapi` returns, or whether it raises. */
  function BatchOutcome<R>(post: seq<string> -> PostReply<R>, chunks: seq<seq<string>>): Exit<seq<R>>
  {
    match PostAll(post, chunks)
    case AllAnswered(bodies) => Returned(bodies)
    case Discarded => Returned([])
    case Escaped => Raised
  }

  /** Every post answers. */
  predicate PostsAnswered<R>(post: seq<string> -> PostReply<R>, chunks: seq<seq<string>>) {
    forall i :: 0 <= i < |chunks| ==> post(chunks[i]).Answered?
  }

  /** When every post answers, the result is the bodies in chunk order; otherwise the
      first post that does not answer decides: an HTTP or JSON error returns the empty
      list, discarding the bodies already received, and anything else raises. */
  lemma {:induction false} BatchOutcomeCharacterised<R>(post: seq<string> -> PostReply<R>, chunks: seq<seq<string>>)
    ensures PostsAnswered(post, chunks) ==>
              BatchOutcome(post, chunks).Returned? &&
              |BatchOutcome(post, chunks).value| == |chunks| &&
              forall i :: 0 <= i < |chunks| ==> BatchOutcome(post, chunks).value[i] == post(chunks[i]).body
    ensures forall j :: 0 <= j < |chunks| && !post(chunks[j]).Answered? &&
                        (forall i :: 0 <= i < j ==> post(chunks[i]).Answered?) ==>
              BatchOutcome(post, chunks) == (if post(chunks[j]).OtherFailure? then Raised else Returned([]))
  {
    if chunks != [] {
      BatchOutcomeCharacterised(post, chunks[1..]);
      var rest := PostAll(post, chunks[1..]);
      if post(chunks[0]).Answered? {
        if PostsAnswered(post, chunks) {
          assert PostsAnswered(post, chunks[1..]) by {
            forall i | 0 <= i < |chunks| - 1 ensures chunks[1..][i] == chunks[i + 1] { }
          }
          var bodies := [post(chunks[0]).body] + rest.bodies;
          assert forall i :: 1 <= i < |chunks| ==> bodies[i] == rest.bodies[i - 1] && chunks[i] == chunks[1..][i - 1];
        }
        forall j | 0 < j < |chunks| && !post(chunks[j]).Answered? &&
                   (forall i :: 0 <= i < j ==> post(chunks[i]).Answered?)
          ensures BatchOutcome(post, chunks) == (if post(chunks[j]).OtherFailure? then Raised else Returned([]))
        {
          assert chunks[1..][j - 1] == chunks[j];
          assert forall i :: 0 <= i < j - 1 ==> chunks[1..][i] == chunks[i + 1];
        }
      }
    }
  }

  /** `batch_ipapi(ip_list)` with the batch endpoint as the parameter `post`. */
  method BatchIpapi<R>(post: seq<string> -> PostReply<R>, ipList: seq<string>) returns (result: Exit<seq<R>>)
    ensures result == BatchOutcome(post, Chunks(ipList))
  {
    var chunks := Chunks(ipList);
    var results: seq<R> := [];
    for i := 0 to |chunks|
      invariant PostAll(post, chunks) == Prepend(results, PostAll(post, chunks[i..]))
    {
      assert chunks[i..][1..] == chunks[i + 1..];
      match post(chunks[i])
      case Answered(body) =>
        PrependTwice(results, [body], PostAll(post, chunks[i + 1..]));
        results := results + [body];
      case HttpError =>
        return Returned([]);
      case BadJson =>
        return Returned([]);
      case OtherFailure =>
        return Raised;
    }
    assert chunks[|chunks|..] == [] && results + [] == results;
    return Returned(results);
  }

  lemma PrependTwice<R>(a: seq<R>, b: seq<R>, rest: Posted<R>)
    ensures Prepend(a, Prepend(b, rest)) == Prepend(a + b, rest)
  {
    if rest.AllAnswered? {
      ConcatAssoc(a, b, rest.bodies);
    }
  }
}
