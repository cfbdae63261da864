/** PingOptions: the mutable settings object a ping is made from, with its defaults and its
    fluent setters (each stores one field and hands back the same object). */
module Options {
  import opened Streams

  /** Hostnames the model covers. `writeBytes` sends one byte per character of the hostname
      (its low eight bits), so a hostname is the byte string sent; one longer than this would
      make the handshake buffer outgrow a Java array. */
  const MaxHostnameLength: nat := 0x7FFF_FFF0

  type Hostname = h: seq<uint8> | |h| <= MaxHostnameLength

  const DefaultPort: int32 := 25565
  const DefaultTimeout: int32 := 2000
  const DefaultCharset: string := "UTF-8"

  class PingOptions {
    var hostname: Option<Hostname>
    var port: int32
    var timeout: int32
    var charset: string

    /** A fresh object: no hostname, port 25565, a two-second timeout, UTF-8. */
    constructor ()
      ensures hostname == None
      ensures port == DefaultPort && timeout == DefaultTimeout && charset == DefaultCharset
    {
      hostname := None;
      port := DefaultPort;
      timeout := DefaultTimeout;
      charset := DefaultCharset;
    }

    /** `setHostname`: null is accepted here and rejected only when pinging. */
    method SetHostname(hostname: Option<Hostname>) returns (self: PingOptions)
      modifies this
      ensures self == this
      ensures this.hostname == hostname
      ensures port == old(port) && timeout == old(timeout) && charset == old(charset)
    {
      this.hostname := hostname;
      return this;
    }

    /** `setPort`: any `int`, unchecked. */
    method SetPort(port: int32) returns (self: PingOptions)
      modifies this
      ensures self == this
      ensures this.port == port
      ensures hostname == old(hostname) && timeout == old(timeout) && charset == old(charset)
    {
      this.port := port;
      return this;
    }

    /** `setTimeout`: any `int`, unchecked. */
    method SetTimeout(timeout: int32) returns (self: PingOptions)
      modifies this
      ensures self == this
      ensures this.timeout == timeout
      ensures hostname == old(hostname) && port == old(port) && charset == old(charset)
    {
      this.timeout := timeout;
      return this;
    }

    /** `setCharset`: any name, unchecked. */
    method SetCharset(charset: string) returns (self: PingOptions)
      modifies this
      ensures self == this
      ensures this.charset == charset
      ensures hostname == old(hostname) && port == old(port) && timeout == old(timeout)
    {
      this.charset := charset;
      return this;
    }
  }
}
