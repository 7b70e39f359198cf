/**
 * The two sample property classes, transcribed as schemas: the service
 * base class (line serialization) and the URI properties class.
 */
module Catalog {
  import opened Wrappers
  import opened Values
  import opened DataModel
  import RdpAllowed

  /** RemoteDesktopServicePropertiesBase: 34 serialized properties, then the five [IgnoreDataMember] flags. */
  const ServiceBaseSchema: Schema :=
    Schema(true, [
      Field("EnableRdsAzureAdAuth", IntKind, DataMember(Some("enablerdsaadauth")), Some([Some(IntVal(0)), Some(IntVal(1))]), None, None, None, false),
      Field("EnableCredSspSupport", IntKind, DataMember(Some("enablecredsspsupport")), Some([Some(IntVal(0)), Some(IntVal(1))]), None, None, None, false),
      Field("AlternateShell", TextKind, DataMember(Some("alternate shell")), None, None, None, None, false),
      Field("AutoReconnectionEnabled", IntKind, DataMember(Some("autoreconnection enabled")), Some([Some(IntVal(0)), Some(IntVal(1))]), None, None, None, false),
      Field("BandwidthAutoDetect", IntKind, DataMember(Some("bandwidthautodetect")), Some([Some(IntVal(0)), Some(IntVal(1))]), None, None, None, false),
      Field("NetworkAutoDetect", IntKind, DataMember(Some("networkautodetect")), Some([Some(IntVal(0)), Some(IntVal(1))]), None, None, None, false),
      Field("Compression", IntKind, DataMember(Some("compression")), Some([Some(IntVal(0)), Some(IntVal(1))]), None, None, None, false),
      Field("VideoPlaybackMode", IntKind, DataMember(Some("videoplaybackmode")), Some([Some(IntVal(0)), Some(IntVal(1))]), None, None, None, false),
      Field("AudioCaptureMode", IntKind, DataMember(Some("audiocapturemode")), Some([Some(IntVal(0)), Some(IntVal(1))]), None, None, None, false),
      Field("EncodedRedirectedVideoCapture", IntKind, DataMember(Some("encode redirected video capture")), Some([Some(IntVal(0)), Some(IntVal(1))]), None, None, None, false),
      Field("RedirectedVideoCaptureEncodingQuality", IntKind, DataMember(Some("redirected video capture encoding quality")), Some([Some(IntVal(0)), Some(IntVal(1)), Some(IntVal(2))]), None, None, None, false),
      Field("AudioMode", IntKind, DataMember(Some("audiomode")), Some([Some(IntVal(0)), Some(IntVal(1)), Some(IntVal(2))]), None, None, None, false),
      Field("CamerasToRedirect", TextKind, DataMember(Some("camerastoredirect")), None, None, None, None, false),
      Field("DevicesToRedirect", TextKind, DataMember(Some("devicestoredirect")), None, None, None, None, false),
      Field("DrivesToRedirect", TextKind, DataMember(Some("drivestoredirect")), None, None, None, None, false),
      Field("KeyboardHook", IntKind, DataMember(Some("keyboardhook")), Some([Some(IntVal(0)), Some(IntVal(1)), Some(IntVal(2)), Some(IntVal(3))]), None, None, None, false),
      Field("RedirectClipboard", IntKind, DataMember(Some("redirectclipboard")), Some([Some(IntVal(0)), Some(IntVal(1))]), None, None, None, false),
      Field("RedirectCOMPorts", IntKind, DataMember(Some("redirectcomports")), Some([Some(IntVal(0)), Some(IntVal(1))]), None, None, None, false),
      Field("RedirectLocation", IntKind, DataMember(Some("redirectlocation")), Some([Some(IntVal(0)), Some(IntVal(1))]), None, None, None, false),
      Field("RedirectPrinters", IntKind, DataMember(Some("redirectprinters")), Some([Some(IntVal(0)), Some(IntVal(1))]), None, None, None, false),
      Field("RedirectSmartCards", IntKind, DataMember(Some("redirectsmartcards")), Some([Some(IntVal(0)), Some(IntVal(1))]), None, None, None, false),
      Field("RedirectWebAuthn", IntKind, DataMember(Some("redirectwebauthn")), Some([Some(IntVal(0)), Some(IntVal(1))]), None, None, None, false),
      Field("UsbDevicesToRedirect", TextKind, DataMember(Some("usbdevicestoredirect")), None, None, None, None, false),
      Field("UseMultipleMonitors", IntKind, DataMember(Some("use multimon")), Some([Some(IntVal(0)), Some(IntVal(1))]), None, None, None, false),
      Field("SelectedMonitors", TextKind, DataMember(Some("selectedmonitors")), None, None, None, None, false),
      Field("MaximizeToCurrentDisplays", IntKind, DataMember(Some("maximizetocurrentdisplays")), Some([Some(IntVal(0)), Some(IntVal(1))]), None, None, None, false),
      Field("SingleMonitorInWindowedMode", IntKind, DataMember(Some("singlemoninwindowedmode")), Some([Some(IntVal(0)), Some(IntVal(1))]), None, None, None, false),
      Field("ScreenModeId", IntKind, DataMember(Some("screen mode id")), Some([Some(IntVal(1)), Some(IntVal(2))]), None, None, None, false),
      Field("SmartSizing", IntKind, DataMember(Some("smart sizing")), Some([Some(IntVal(0)), Some(IntVal(1))]), None, None, None, false),
      Field("DynamicResolution", IntKind, DataMember(Some("dynamic resolution")), Some([Some(IntVal(0)), Some(IntVal(1))]), None, None, None, false),
      Field("DesktopSizeId", IntKind, DataMember(Some("desktop size id")), Some([None, Some(IntVal(0)), Some(IntVal(1)), Some(IntVal(2)), Some(IntVal(3)), Some(IntVal(4))]), None, None, None, false),
      Field("DesktopHeight", IntKind, DataMember(Some("desktopheight")), None, None, Some(Range(200, 8192)), None, false),
      Field("DesktopWidth", IntKind, DataMember(Some("desktopwidth")), None, None, Some(Range(200, 8192)), None, false),
      Field("DesktopScaleFactor", IntKind, DataMember(Some("desktopscalefactor")), Some([None, Some(IntVal(100)), Some(IntVal(125)), Some(IntVal(150)), Some(IntVal(175)), Some(IntVal(200)), Some(IntVal(250)), Some(IntVal(300)), Some(IntVal(400)), Some(IntVal(500))]), None, None, None, false),
      Field("RedirectAllCameras", OtherKind, NoDataMember, None, None, None, None, true),
      Field("RedirectAllDevices", OtherKind, NoDataMember, None, None, None, None, true),
      Field("RedirectDynamicDevices", OtherKind, NoDataMember, None, None, None, None, true),
      Field("RedirectAllDrives", OtherKind, NoDataMember, None, None, None, None, true),
      Field("RedirectDynamicDrives", OtherKind, NoDataMember, None, None, None, None, true)
    ])

  /** RemoteDesktopUriProperties; its allowed sets are [RdpAllowedValues], which the serializer does not read. */
  const UriSchema: Schema :=
    Schema(true, [
      Field("AllowDesktopComposition", IntKind, DataMember(Some("allow desktop composition")), None, Some(RdpAllowed.Create(Some([Some(IntVal(0)), Some(IntVal(1))]))), None, None, false),
      Field("AllowFontSmoothing", IntKind, DataMember(Some("allow font smoothing")), None, Some(RdpAllowed.Create(Some([Some(IntVal(0)), Some(IntVal(1))]))), None, None, false),
      Field("AlternateShell", TextKind, DataMember(Some("alternate shell")), None, None, None, None, false),
      Field("AudioMode", IntKind, DataMember(Some("audiomode")), None, Some(RdpAllowed.Create(Some([Some(IntVal(0)), Some(IntVal(1)), Some(IntVal(2))]))), None, None, false),
      Field("AuthenticationLevel", IntKind, DataMember(Some("authentication level")), None, Some(RdpAllowed.Create(Some([Some(IntVal(0)), Some(IntVal(1)), Some(IntVal(2)), Some(IntVal(3))]))), None, None, false),
      Field("ConnectToConsole", IntKind, DataMember(Some("connect to console")), None, Some(RdpAllowed.Create(Some([Some(IntVal(0)), Some(IntVal(1))]))), None, None, false),
      Field("DisableCursorSettings", IntKind, DataMember(Some("disable cursor setting")), None, Some(RdpAllowed.Create(Some([Some(IntVal(0)), Some(IntVal(1))]))), None, None, false),
      Field("DisableFullWindowDrag", IntKind, DataMember(Some("disable full window drag")), None, Some(RdpAllowed.Create(Some([Some(IntVal(0)), Some(IntVal(1))]))), None, None, false),
      Field("DisableMenuAnimations", IntKind, DataMember(Some("disable menu anims")), None, Some(RdpAllowed.Create(Some([Some(IntVal(0)), Some(IntVal(1))]))), None, None, false),
      Field("DisableThemes", IntKind, DataMember(Some("disable themes")), None, Some(RdpAllowed.Create(Some([Some(IntVal(0)), Some(IntVal(1))]))), None, None, false),
      Field("DisableWallpaper", IntKind, DataMember(Some("disable wallpaper")), None, Some(RdpAllowed.Create(Some([Some(IntVal(0)), Some(IntVal(1))]))), None, None, false),
      Field("DrivesToRedirect", TextKind, DataMember(Some("drivestoredirect")), None, None, None, None, false),
      Field("DesktopHeight", IntKind, DataMember(Some("desktopheight")), None, None, Some(Range(200, 8192)), None, false),
      Field("DesktopWidth", IntKind, DataMember(Some("desktopwidth")), None, None, Some(Range(200, 8192)), None, false),
      Field("Domain", TextKind, DataMember(Some("domain")), None, None, None, None, false),
      Field("FullAddress", TextKind, DataMember(Some("full address")), None, None, None, None, false),
      Field("GatewayHostName", TextKind, DataMember(Some("gatewayhostname")), None, None, None, None, false),
      Field("GatewayUsageMethod", IntKind, DataMember(Some("gatewayusagemethod")), None, Some(RdpAllowed.Create(Some([Some(IntVal(0)), Some(IntVal(1)), Some(IntVal(2)), Some(IntVal(3)), Some(IntVal(4))]))), None, None, false),
      Field("PromptForCredentialsOnClient", IntKind, DataMember(Some("prompt for credentials on client")), None, Some(RdpAllowed.Create(Some([Some(IntVal(0)), Some(IntVal(1))]))), None, None, false),
      Field("LoadBalanceInfo", TextKind, DataMember(Some("loadbalanceinfo")), None, None, None, None, false),
      Field("RedirectPrinters", IntKind, DataMember(Some("redirectprinters")), None, Some(RdpAllowed.Create(Some([Some(IntVal(0)), Some(IntVal(1))]))), None, None, false),
      Field("RemoteApplicationCommandLine", TextKind, DataMember(Some("remoteapplicationcmdline")), None, None, None, None, false),
      Field("RemoteApplicationMode", IntKind, DataMember(Some("remoteapplicationmode")), None, Some(RdpAllowed.Create(Some([Some(IntVal(0)), Some(IntVal(1))]))), None, None, false),
      Field("ShellWorkingDirectory", TextKind, DataMember(Some("shell working directory")), None, None, None, None, false),
      Field("UseRedirectionServerName", IntKind, DataMember(Some("Use redirection server name")), None, Some(RdpAllowed.Create(Some([Some(IntVal(0)), Some(IntVal(1))]))), None, None, false),
      Field("Username", TextKind, DataMember(Some("username")), None, None, None, None, false),
      Field("ScreenModeId", IntKind, DataMember(Some("screen mode id")), None, Some(RdpAllowed.Create(Some([Some(IntVal(1)), Some(IntVal(2))]))), None, None, false),
      Field("SessionBpp", IntKind, DataMember(Some("session bpp")), None, Some(RdpAllowed.Create(Some([Some(IntVal(8)), Some(IntVal(15)), Some(IntVal(16)), Some(IntVal(24)), Some(IntVal(32))]))), None, None, false),
      Field("UseMultipleMonitors", IntKind, DataMember(Some("use multimon")), None, Some(RdpAllowed.Create(Some([Some(IntVal(0)), Some(IntVal(1))]))), None, None, false)
    ])
}
