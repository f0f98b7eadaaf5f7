/** The records exchanged with the session store (`DeviceInfo`, `SessionTokenResponse`). */
module Models {
  import opened Wrappers

  /** An instant, as a count of `DateTime` ticks (100 ns). */
  type Instant = int

  const TicksPerHour: int := 36_000_000_000

  /** What is known about a client device; `macAddress` holds the device id the session is registered under. */
  datatype DeviceInfo = DeviceInfo(
    macAddress: string,
    deviceName: Option<string>,
    ipAddress: Option<string>,
    realIpAddress: Option<string>,
    userAgent: Option<string>,
    sessionToken: Option<string>,
    isVpnConnection: bool,
    registeredAt: Instant,
    lastConnectedAt: Option<Instant>,
    status: string,
    additionalInfo: Option<string>)

  /** An issued session: its token, when it stops being valid, and the device it belongs to. */
  datatype SessionTokenResponse = SessionTokenResponse(
    sessionToken: string,
    expiresAt: Instant,
    deviceInfo: DeviceInfo)
}
