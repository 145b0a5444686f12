/** Service identifiers, negative response codes, requests and responses of the UDS core. */
module Uds {
  import opened Bytes

  const DIAGNOSTIC_SESSION_CONTROL: u8 := 0x10
  const SECURITY_ACCESS: u8 := 0x27
  const ROUTINE_CONTROL: u8 := 0x31
  const REQUEST_DOWNLOAD: u8 := 0x34
  const REQUEST_UPLOAD: u8 := 0x35
  const TRANSFER_DATA: u8 := 0x36
  const REQUEST_TRANSFER_EXIT: u8 := 0x37

  const DIAGNOSTIC_SESSION_CONTROL_RSP: u8 := 0x50
  const NEGATIVE_RESPONSE: u8 := 0x7F

  const NRC_POSITIVE: u8 := 0x00
  const NRC_SERVICE_NOT_SUPPORTED: u8 := 0x11
  const NRC_SUB_FUNCTION_NOT_SUPPORTED: u8 := 0x12
  const NRC_INCORRECT_LENGTH: u8 := 0x13
  const NRC_RESPONSE_TOO_LONG: u8 := 0x14
  const NRC_CONDITIONS_NOT_CORRECT: u8 := 0x22
  const NRC_REQUEST_SEQUENCE_ERROR: u8 := 0x24
  const NRC_REQUEST_OUT_OF_RANGE: u8 := 0x31
  const NRC_SECURITY_ACCESS_DENIED: u8 := 0x33
  const NRC_INVALID_KEY: u8 := 0x35
  const NRC_EXCEEDED_ATTEMPTS: u8 := 0x36
  const NRC_DELAY_NOT_EXPIRED: u8 := 0x37
  const NRC_UPLOAD_DOWNLOAD_NOT_ACCEPTED: u8 := 0x70
  const NRC_TRANSFER_DATA_SUSPENDED: u8 := 0x71
  const NRC_GENERAL_PROGRAMMING_FAILURE: u8 := 0x72
  const NRC_WRONG_BLOCK_SEQUENCE_COUNTER: u8 := 0x73
  const NRC_SERVICE_NOT_IN_SESSION: u8 := 0x7F

  const DEFAULT_SESSION: u8 := 1
  const PROGRAMMING_SESSION: u8 := 2
  const EXTENDED_SESSION: u8 := 3

  type u7 = x: int | 0 <= x < 0x80

  /** A parsed request: byte 1 is split into a subfunction value and the suppress bit. */
  datatype Request = Request(sid: u8, subfunction: u7, suppress: bool, data: seq<u8>)

  /** UDS_REQ_BYTE1: services without a subfunction put the byte together again. */
  function Byte1(r: Request): u8 {
    r.subfunction + (if r.suppress then 0x80 else 0)
  }

  /** A response structure; sid 0 is the zeroed structure a handler left untouched, data the bytes handed to
      uds_set_pos_rsp. */
  datatype Response = Response(sid: u8, echo: u8, data: seq<u8>)

  const NO_RESPONSE := Response(0, 0, [])

  function Negative(sid: u8, nrc: u8): Response {
    Response(NEGATIVE_RESPONSE, sid, [nrc])
  }

  /** uds_set_pos_rsp: the response SID is the request SID plus 0x40. */
  function Positive(sid: u8, echo: u8, data: seq<u8>): Response {
    Response((sid + 0x40) % 0x100, echo, data)
  }

  function Parse(raw: seq<u8>): (r: Option<Request>) {
    if raw == [] then None
    else if |raw| == 1 then Some(Request(raw[0], 0, false, []))
    else Some(Request(raw[0], raw[1] % 0x80, raw[1] / 0x80 == 1, raw[2..]))
  }

  /** Parsing loses nothing but the distinction between an absent byte 1 and a zero byte 1. */
  lemma ParseKeepsBytes(raw: seq<u8>)
    ensures Parse(raw) == None <==> raw == []
    ensures |raw| >= 2 ==> [Parse(raw).value.sid, Byte1(Parse(raw).value)] + Parse(raw).value.data == raw
    ensures |raw| == 1 ==> [Parse(raw).value.sid] == raw && Byte1(Parse(raw).value) == 0
  {
    if |raw| >= 2 {
      var r := Parse(raw).value;
      assert raw == [raw[0], raw[1]] + raw[2..];
      assert Byte1(r) == raw[1];
    }
  }
}
