/** `getHostStr(client)` of the server program (Server/main.cpp): the same
    text as the client program's `getHostStr`, built from a session's
    `GetHost()` and `GetPort()`. Both are the raw fields of the accepted
    address, so the port is shown in network byte order. */
module ServerMain {
  import opened Bytes
  import opened Decimal
  import opened Wire
  import opened ServerTcp
  import opened ClientMain

  /** `getHostStr(client)`: reads the session's two constant fields only. */
  function SessionHostStr(session: ServerSession, signedChar: bool): (s: string)
    ensures SplitDots(s) == HostFields(session.GetHost(), session.GetPort(), signedChar)
  {
    HostStrFields(session.GetHost(), session.GetPort(), signedChar);
    GetHostStr(session.GetHost(), session.GetPort(), signedChar)
  }

  /** A peer on port p shows up with the byte-swapped value: the last field is
      the decimal text of `htons(p)`, which differs from that of p unless the
      two bytes of p are equal. */
  lemma SessionPortIsRaw(session: ServerSession, p: uint16, signedChar: bool)
    requires session.GetPort() == Htons(p)
    ensures SplitDots(SessionHostStr(session, signedChar))[4] == Dec(Htons(p))
    ensures p % 0x100 != p / 0x100 ==> SplitDots(SessionHostStr(session, signedChar))[4] != Dec(p)
  {
    if p % 0x100 != p / 0x100 && Dec(Htons(p)) == Dec(p) {
      DecInjective(Htons(p), p);
    }
  }

  /** A peer on port 8081 is shown with port 37151. */
  lemma Port8081Shown(session: ServerSession, signedChar: bool)
    requires session.GetPort() == Htons(8081)
    ensures SplitDots(SessionHostStr(session, signedChar))[4] == Dec(37151)
  {
    assert Htons(8081) == 37151;
  }
}
