/**
 * The request layer of src/dms-crud.c: the streaming download and upload
 * buffers behind libcurl's write, read and seek callbacks, the URL shapes of
 * check-in, delete and pause, and what those three operations return.
 *
 * libcurl itself is not modelled. One HTTP exchange is a `transport`
 * function from the request the code configures to the transport return
 * code and the HTTP status it then reads back.
 */
module DmsCrud {
  import opened Wrappers

  newtype byte = x: int | 0 <= x < 256

  /** size_t is 64 bits wide: casts to it and additions on it wrap modulo this. */
  const SizeModulus: int := 0x1_0000_0000_0000_0000

  /** curl_off_t, a signed 64-bit offset. */
  type Int64 = x: int | -0x8000_0000_0000_0000 <= x < 0x8000_0000_0000_0000

  /** An integer converted to size_t. */
  function ToSize(x: int): (r: nat)
    ensures r < SizeModulus
    ensures 0 <= x < SizeModulus ==> r == x
  {
    x % SizeModulus
  }

  // ---------------------------------------------------------------------
  // struct download_buffer and download_data_cb / download_buffer_free
  // ---------------------------------------------------------------------

  /**
   * The response body as it arrives. `buf` is NULL until the first chunk;
   * afterwards it holds `len` bytes of body and the NUL sentinel after them.
   */
  class DownloadBuffer {
    var buf: array?<byte>
    var len: nat

    ghost predicate Valid()
      reads this, buf
    {
      && (buf == null ==> len == 0)
      && (buf != null ==> buf.Length == len + 1 && buf[len] == 0)
    }

    /** The body received so far. */
    ghost function Contents(): seq<byte>
      reads this, buf
      requires Valid()
    {
      if buf == null then [] else buf[..len]
    }

    /** `struct download_buffer download_data = { 0 }`. */
    constructor ()
      ensures Valid() && buf == null && len == 0 && Contents() == []
    {
      buf := null;
      len := 0;
    }

    /**
     * download_data_cb(ptr, size, nmemb, db). The storage is reallocated to
     * `len + size*nmemb + 1` bytes; `allocOk` is whether realloc succeeds.
     * On success the chunk is appended, the sentinel is rewritten after it
     * and the chunk's length is returned; on failure 0 is returned and the
     * buffer is left as it was.
     */
    method Write(ptr: seq<byte>, size: nat, nmemb: nat, allocOk: bool) returns (written: nat)
      requires Valid()
      requires |ptr| == size * nmemb
      modifies this
      ensures Valid()
      ensures allocOk ==> written == size * nmemb && len == old(len) + size * nmemb
      ensures allocOk ==> Contents() == old(Contents()) + ptr
      ensures allocOk ==> buf != null && fresh(buf) && buf.Length == len + 1 && buf[len] == 0
      ensures !allocOk ==> written == 0 && buf == old(buf) && len == old(len)
      ensures !allocOk ==> Contents() == old(Contents())
    {
      var n := size * nmemb;
      var oldlen := len;
      var newlen := oldlen + n;
      if !allocOk {
        return 0;
      }
      ghost var was := Contents();
      var newmem := Realloc(buf, oldlen, newlen + 1);
      CopyInto(newmem, oldlen, ptr);
      // memcpy(db->buf + newlen, &zero, 1)
      newmem[newlen] := 0;
      buf := newmem;
      len := newlen;
      assert buf[..len] == was + ptr;
      written := n;
    }

    /**
     * download_buffer_free(db): releases the storage and zeroes the struct,
     * but only when `len` is non-zero; with `len == 0` nothing changes, even
     * when a zero-length chunk has already allocated the sentinel.
     */
    method Free()
      requires Valid()
      modifies this
      ensures Valid()
      ensures old(len) != 0 ==> buf == null && len == 0 && Contents() == []
      ensures old(len) == 0 ==> buf == old(buf) && len == 0
    {
      if len != 0 {
        buf := null;
        len := 0;
      }
    }
  }

  /**
   * realloc(mem, size) when it succeeds: fresh storage of `size` bytes that
   * starts with the first `keep` bytes of the old block (none for NULL).
   */
  method Realloc(mem: array?<byte>, keep: nat, size: nat) returns (block: array<byte>)
    requires mem == null ==> keep == 0
    requires mem != null ==> keep <= mem.Length
    requires keep <= size
    ensures fresh(block) && block.Length == size
    ensures mem != null ==> block[..keep] == mem[..keep]
  {
    block := new byte[size];
    if mem != null {
      var i := 0;
      while i < keep
        invariant 0 <= i <= keep
        invariant forall k :: 0 <= k < i ==> block[k] == mem[k]
      {
        block[i] := mem[i];
        i := i + 1;
      }
    }
  }

  /** memcpy(dst + at, src, |src|): the bytes of `src` land at `at`; nothing else changes. */
  method CopyInto(dst: array<byte>, at: nat, src: seq<byte>)
    requires at + |src| <= dst.Length
    modifies dst
    ensures dst[at..at + |src|] == src
    ensures dst[..at] == old(dst[..at])
    ensures dst[at + |src|..] == old(dst[at + |src|..])
  {
    var j := 0;
    while j < |src|
      invariant 0 <= j <= |src|
      invariant forall k :: 0 <= k < j ==> dst[at + k] == src[k]
      invariant forall k :: 0 <= k < dst.Length && !(at <= k < at + j) ==> dst[k] == old(dst[k])
    {
      dst[at + j] := src[j];
      j := j + 1;
    }
  }

  // ---------------------------------------------------------------------
  // struct upload_buffer and upload_data_cb / seek_data_cb
  // ---------------------------------------------------------------------

  /** How many bytes one read callback copies: the request, clipped to what remains. */
  function UploadChunk(remaining: nat, request: nat): (n: nat)
    ensures n <= remaining && n <= request
    ensures n == remaining || n == request
    ensures n == 0 <==> remaining == 0 || request == 0
  {
    if request > remaining then remaining else request
  }

  function Min(a: nat, b: nat): nat { if a < b then a else b }

  function Sum(requests: seq<nat>): nat {
    if requests == [] then 0 else requests[0] + Sum(requests[1..])
  }

  /** The bytes successive read callbacks with the given request sizes deliver, starting at `pos`. */
  function Replay(body: seq<byte>, pos: nat, requests: seq<nat>): (r: seq<byte>)
    requires pos <= |body|
    ensures |r| <= |body| - pos
    decreases |requests|
  {
    if requests == [] then []
    else
      var n := UploadChunk(|body| - pos, requests[0]);
      body[pos..pos + n] + Replay(body, pos + n, requests[1..])
  }

  const SeekSet: int := 0
  const SeekCur: int := 1
  const SeekEnd: int := 2

  /** Where seek_data_cb moves the cursor, or None for an origin it rejects. */
  function SeekTarget(pos: nat, len: nat, offset: Int64, origin: int): (r: Option<nat>)
    ensures r.Some? <==> origin == SeekSet || origin == SeekCur || origin == SeekEnd
    ensures r.Some? ==> r.value < SizeModulus
  {
    if origin == SeekSet then Some(ToSize(offset))
    else if origin == SeekCur then Some(ToSize(pos + ToSize(offset)))
    else if origin == SeekEnd then Some(ToSize(len + ToSize(offset)))
    else None
  }

  /** The request body being sent, with its read cursor. */
  class UploadBuffer {
    const buf: seq<byte>
    const len: nat
    var pos: nat

    /** The cursor lies within the body, as a read needs it to. */
    ghost predicate Valid()
      reads this
    {
      len == |buf| && pos <= len
    }

    /** `upload_data.buf = req; upload_data.len = strlen(req); upload_data.pos = 0`. */
    constructor (req: seq<byte>)
      requires |req| < SizeModulus
      ensures buf == req && len == |req| && pos == 0 && Valid()
    {
      buf := req;
      len := |req|;
      pos := 0;
    }

    /**
     * upload_data_cb(ptr, size, nmemb, ub): copies the next
     * min(size*nmemb, len-pos) bytes into `ptr` and advances the cursor by
     * that many. Requires the cursor within the body: the unsigned
     * `len - pos` would otherwise wrap and the copy read past the body.
     */
    method Read(ptr: array<byte>, size: nat, nmemb: nat) returns (n: nat)
      requires Valid()
      requires size * nmemb <= ptr.Length
      modifies this, ptr
      ensures Valid()
      ensures n == UploadChunk(len - old(pos), size * nmemb)
      ensures pos == old(pos) + n
      ensures ptr[..n] == buf[old(pos)..old(pos) + n]
      ensures ptr[n..] == old(ptr[n..])
    {
      n := size * nmemb;
      if n > len - pos {
        n := len - pos;
      }
      if n != 0 {
        var from := pos;
        var i := 0;
        while i < n
          invariant 0 <= i <= n
          invariant forall k :: 0 <= k < i ==> ptr[k] == buf[from + k]
          invariant forall k :: i <= k < ptr.Length ==> ptr[k] == old(ptr[k])
        {
          ptr[i] := buf[from + i];
          i := i + 1;
        }
        pos := from + n;
      }
    }

    /**
     * seek_data_cb(ub, offset, origin): SEEK_SET, SEEK_CUR and SEEK_END move
     * the cursor (with size_t wrap-around) and return 0; any other origin
     * returns 1 and leaves it. No range check: the cursor may leave the body.
     */
    method Seek(offset: Int64, origin: int) returns (rc: int)
      requires pos < SizeModulus
      modifies this
      ensures rc == 0 <==> SeekTarget(old(pos), len, offset, origin).Some?
      ensures rc == 1 <==> SeekTarget(old(pos), len, offset, origin).None?
      ensures rc == 0 ==> pos == SeekTarget(old(pos), len, offset, origin).value
      ensures rc == 1 ==> pos == old(pos)
    {
      if origin == SeekSet {
        pos := ToSize(offset);
      } else if origin == SeekCur {
        pos := ToSize(pos + ToSize(offset));
      } else if origin == SeekEnd {
        pos := ToSize(len + ToSize(offset));
      } else {
        return 1;
      }
      return 0;
    }
  }

  // ---------------------------------------------------------------------
  // Properties of the buffers
  // ---------------------------------------------------------------------

  /** Successive reads deliver the body in order: exactly the bytes from `pos` up to what was asked for. */
  lemma {:induction false} ReplayIsSlice(body: seq<byte>, pos: nat, requests: seq<nat>)
    requires pos <= |body|
    ensures Replay(body, pos, requests) == body[pos..Min(|body|, pos + Sum(requests))]
    decreases |requests|
  {
    if requests != [] {
      var rest := requests[1..];
      var n := UploadChunk(|body| - pos, requests[0]);
      var end := Min(|body|, pos + Sum(requests));
      ChunkBound(|body|, pos, requests);
      calc {
        Replay(body, pos, requests);
        body[pos..pos + n] + Replay(body, pos + n, rest);
        { ReplayIsSlice(body, pos + n, rest); }
        body[pos..pos + n] + body[pos + n..end];
        body[pos..end];
      }
    }
  }

  /** One chunk followed by the rest of the requests reaches as far as all the requests together. */
  lemma ChunkBound(len: nat, pos: nat, requests: seq<nat>)
    requires pos <= len && requests != []
    ensures var n := UploadChunk(len - pos, requests[0]);
            && pos + n <= Min(len, pos + Sum(requests))
            && Min(len, pos + n + Sum(requests[1..])) == Min(len, pos + Sum(requests))
  {
  }

  /** Reading from the start until the requests cover the body replays the whole body. */
  lemma ReplayFromStart(body: seq<byte>, requests: seq<nat>)
    requires Sum(requests) >= |body|
    ensures Replay(body, 0, requests) == body
  {
    ReplayIsSlice(body, 0, requests);
  }

  /**
   * For a target inside the body the three origins agree: SEEK_SET to it,
   * SEEK_CUR by its distance from the cursor and SEEK_END by its distance
   * from the end all land on it.
   */
  lemma SeekOriginsAgree(pos: nat, len: nat, target: nat)
    requires pos < 0x8000_0000_0000_0000 && len < 0x8000_0000_0000_0000 && target <= len
    ensures SeekTarget(pos, len, target, SeekSet) == Some(target)
    ensures SeekTarget(pos, len, target - pos, SeekCur) == Some(target)
    ensures SeekTarget(pos, len, target - len, SeekEnd) == Some(target)
  {
    ModAdd(pos, target - pos);
    ModAdd(len, target - len);
  }

  /** Adding a converted offset to an in-range value is adding the offset, modulo the size. */
  lemma ModAdd(base: nat, offset: int)
    requires base < SizeModulus && -SizeModulus < offset < SizeModulus
    requires 0 <= base + offset < SizeModulus
    ensures ToSize(base + ToSize(offset)) == base + offset
  {
    if offset < 0 {
      assert ToSize(offset) == offset + SizeModulus;
      assert base + ToSize(offset) == base + offset + SizeModulus;
    }
  }

  /** No range check: SEEK_END past the end, or SEEK_CUR backwards from 0, leaves the cursor outside the body. */
  lemma SeekLeavesBody(len: nat)
    requires len + 1 < SizeModulus
    ensures SeekTarget(0, len, 1, SeekEnd) == Some(len + 1)
    ensures SeekTarget(0, len, -1, SeekCur) == Some(SizeModulus - 1)
  {
  }

  // ---------------------------------------------------------------------
  // URL shapes
  // ---------------------------------------------------------------------

  /** MAX_URL, the size of the URL arrays. */
  const MaxUrl: nat := 256

  /** DMS_API_URL in src/dms.h. */
  const DmsApiUrl: string := "https://api.deadmanssnitch.com/v1/snitches"

  const CheckInBase: string := "https://nosnch.in/"

  /** snprintf(url, MAX_URL, ...): the formatted text, cut to MAX_URL - 1 characters. */
  function Snprintf(text: string): (url: string)
    ensures |url| <= MaxUrl - 1 && |url| <= |text|
    ensures url == text[..|url|]
    ensures |text| < MaxUrl ==> url == text
    ensures |text| >= MaxUrl ==> |url| == MaxUrl - 1
  {
    if |text| < MaxUrl then text else text[..MaxUrl - 1]
  }

  /** The check-in URL, `https://nosnch.in/%s`. */
  function CheckInUrl(token: string): (url: string)
    ensures |url| <= MaxUrl - 1 && |url| <= |CheckInBase + token| && url == (CheckInBase + token)[..|url|]
    ensures |token| <= CheckInTokenRoom ==> url == CheckInBase + token
  {
    Snprintf(CheckInBase + token)
  }

  /** The delete URL, `DMS_API_URL "/%s"`. */
  function DeleteUrl(token: string): (url: string)
    ensures |url| <= MaxUrl - 1 && |url| <= |DmsApiUrl + "/" + token| && url == (DmsApiUrl + "/" + token)[..|url|]
    ensures |token| <= DeleteTokenRoom ==> url == DmsApiUrl + "/" + token
  {
    Snprintf(DmsApiUrl + "/" + token)
  }

  /** The pause URL, `DMS_API_URL "/%s/pause"`. */
  function PauseUrl(token: string): (url: string)
    ensures |url| <= MaxUrl - 1 && |url| <= |DmsApiUrl + "/" + token + "/pause"| && url == (DmsApiUrl + "/" + token + "/pause")[..|url|]
    ensures |token| <= PauseTokenRoom ==> url == DmsApiUrl + "/" + token + "/pause"
  {
    Snprintf(DmsApiUrl + "/" + token + "/pause")
  }

  /** The token a check-in URL names. */
  function CheckInToken(url: string): Option<string> {
    if |CheckInBase| <= |url| && url[..|CheckInBase|] == CheckInBase then Some(url[|CheckInBase|..]) else None
  }

  /** The token a delete URL names. */
  function DeleteToken(url: string): Option<string> {
    var base := DmsApiUrl + "/";
    if |base| <= |url| && url[..|base|] == base then Some(url[|base|..]) else None
  }

  /** The token a pause URL names. */
  function PauseToken(url: string): Option<string> {
    var base := DmsApiUrl + "/";
    var suffix := "/pause";
    if |base| + |suffix| <= |url| && url[..|base|] == base && url[|url| - |suffix|..] == suffix
    then Some(url[|base|..|url| - |suffix|])
    else None
  }

  /** The longest tokens the three URL arrays hold whole. */
  const CheckInTokenRoom: nat := MaxUrl - 1 - |CheckInBase|
  const DeleteTokenRoom: nat := MaxUrl - 1 - |DmsApiUrl| - 1
  const PauseTokenRoom: nat := MaxUrl - 1 - |DmsApiUrl| - 7

  /** A check-in URL names its token when the token fits, and the fitting prefix of the token otherwise. */
  lemma CheckInUrlRoundTrip(token: string)
    ensures |CheckInUrl(token)| <= MaxUrl - 1
    ensures |token| <= CheckInTokenRoom ==> CheckInToken(CheckInUrl(token)) == Some(token)
    ensures |token| > CheckInTokenRoom ==> CheckInToken(CheckInUrl(token)) == Some(token[..CheckInTokenRoom])
  {
    var full := CheckInBase + token;
    assert full[..|CheckInBase|] == CheckInBase;
    if |token| > CheckInTokenRoom {
      assert CheckInUrl(token)[..|CheckInBase|] == CheckInBase;
      assert CheckInUrl(token)[|CheckInBase|..] == token[..CheckInTokenRoom];
    } else {
      assert full[|CheckInBase|..] == token;
    }
  }

  /** A delete URL names its token when the token fits, and the fitting prefix of the token otherwise. */
  lemma DeleteUrlRoundTrip(token: string)
    ensures |DeleteUrl(token)| <= MaxUrl - 1
    ensures |token| <= DeleteTokenRoom ==> DeleteToken(DeleteUrl(token)) == Some(token)
    ensures |token| > DeleteTokenRoom ==> DeleteToken(DeleteUrl(token)) == Some(token[..DeleteTokenRoom])
  {
    var base := DmsApiUrl + "/";
    var full := base + token;
    assert full[..|base|] == base;
    if |token| > DeleteTokenRoom {
      assert DeleteUrl(token)[..|base|] == base;
      assert DeleteUrl(token)[|base|..] == token[..DeleteTokenRoom];
    } else {
      assert full[|base|..] == token;
    }
  }

  /** A pause URL names its token when the token fits; a longer token loses the `/pause` suffix to truncation. */
  lemma PauseUrlRoundTrip(token: string)
    ensures |PauseUrl(token)| <= MaxUrl - 1
    ensures |token| <= PauseTokenRoom ==> PauseToken(PauseUrl(token)) == Some(token)
    ensures |token| > PauseTokenRoom ==>
      |PauseUrl(token)| == MaxUrl - 1 && PauseUrl(token) == (DmsApiUrl + "/" + token + "/pause")[..MaxUrl - 1]
  {
    var base := DmsApiUrl + "/";
    var full := DmsApiUrl + "/" + token + "/pause";
    if |token| <= PauseTokenRoom {
      assert full == base + token + "/pause";
      assert full[..|base|] == base;
      assert full[|full| - 6..] == "/pause";
      assert full[|base|..|full| - 6] == token;
    }
  }

  // ---------------------------------------------------------------------
  // Request shapes and the status policy
  // ---------------------------------------------------------------------

  datatype Verb = Get | Post | Delete

  /**
   * What the code configures on the handle: the method, the URL, the
   * Basic-auth credentials (only when a key is given) and the POST body.
   */
  datatype Request = Request(verb: Verb, url: string, credentials: Option<string>, body: Option<seq<byte>>)

  /** What curl_easy_perform returns and what CURLINFO_RESPONSE_CODE then reads. */
  datatype Reply = Reply(rc: int, status: int)

  /** The message a call writes to stderr besides its return value. */
  datatype Warning = UnexpectedStatus(status: int) | RequestFailed

  datatype CallResult = CallResult(request: Request, rc: int, warning: Option<Warning>)

  /** dms_crud_check_in: GET of the check-in URL; a status other than 202 only adds a warning. */
  function CheckIn(token: string, transport: Request -> Reply): (r: CallResult)
    ensures r.request.verb == Get && r.request.url == CheckInUrl(token)
    ensures r.request.credentials.None? && r.request.body.None?
    ensures r.rc == transport(r.request).rc
    ensures r.warning.Some? <==> transport(r.request).status != 202
  {
    var request := Request(Get, CheckInUrl(token), None, None);
    var reply := transport(request);
    CallResult(request, reply.rc, if reply.status != 202 then Some(UnexpectedStatus(reply.status)) else None)
  }

  /** dms_crud_delete: DELETE of the snitch URL; a 404 on a failed transfer only adds a diagnostic. */
  function DeleteSnitch(pass: Option<string>, token: string, transport: Request -> Reply): (r: CallResult)
    ensures r.request.verb == Delete && r.request.url == DeleteUrl(token)
    ensures r.request.credentials == pass && r.request.body.None?
    ensures r.rc == transport(r.request).rc
    ensures r.warning.Some? <==> transport(r.request).rc != 0 && transport(r.request).status == 404
  {
    var request := Request(Delete, DeleteUrl(token), pass, None);
    var reply := transport(request);
    CallResult(request, reply.rc, if reply.rc != 0 && reply.status == 404 then Some(RequestFailed) else None)
  }

  /** dms_crud_pause: POST of an empty body to the pause URL; a status other than 204 only adds a warning. */
  function Pause(pass: Option<string>, token: string, transport: Request -> Reply): (r: CallResult)
    ensures r.request.verb == Post && r.request.url == PauseUrl(token)
    ensures r.request.credentials == pass && r.request.body == Some([])
    ensures r.rc == transport(r.request).rc
    ensures r.warning.Some? <==> transport(r.request).status != 204
  {
    var request := Request(Post, PauseUrl(token), pass, Some([]));
    var reply := transport(request);
    CallResult(request, reply.rc, if reply.status != 204 then Some(UnexpectedStatus(reply.status)) else None)
  }

  /**
   * The status never reaches the return value: two exchanges that agree on
   * the transport code give the same code back, whatever their HTTP status,
   * and a transfer that succeeds with 500 still returns 0.
   */
  lemma StatusIgnored(pass: Option<string>, token: string, t1: Request -> Reply, t2: Request -> Reply)
    requires forall r :: t1(r).rc == t2(r).rc
    ensures CheckIn(token, t1).rc == CheckIn(token, t2).rc
    ensures DeleteSnitch(pass, token, t1).rc == DeleteSnitch(pass, token, t2).rc
    ensures Pause(pass, token, t1).rc == Pause(pass, token, t2).rc
  {
  }

  /** A transport-level success with an unexpected status is still reported as success, with a warning. */
  lemma UnexpectedStatusStillSucceeds(pass: Option<string>, token: string)
    ensures var r := CheckIn(token, _ => Reply(0, 500)); r.rc == 0 && r.warning == Some(UnexpectedStatus(500))
    ensures var r := Pause(pass, token, _ => Reply(0, 500)); r.rc == 0 && r.warning == Some(UnexpectedStatus(500))
    ensures var r := DeleteSnitch(pass, token, _ => Reply(0, 404)); r.rc == 0 && r.warning.None?
  {
  }
}
