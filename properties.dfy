/**
 * The property objects the serializer reads and fills. Reflection over a
 * property class is replaced by a map from C# property name to value; a
 * name that is absent is a property holding null.
 *
 * The class also carries the list and flag helpers that the property base
 * classes declare over their string properties (cameras, devices, drives,
 * USB devices, selected monitors) and the window-position accessors.
 */
module Properties {
  import opened Wrappers
  import opened Values
  import Text
  import WindowPositions

  const CamerasToRedirect: string := "CamerasToRedirect"
  const DevicesToRedirect: string := "DevicesToRedirect"
  const DrivesToRedirect: string := "DrivesToRedirect"
  const UsbDevicesToRedirect: string := "UsbDevicesToRedirect"
  const SelectedMonitors: string := "SelectedMonitors"
  const WindowPositionString: string := "WindowPositionString"

  const Semicolon: char := ';'
  const Comma: char := ','

  /** `list != null && list.Count() > 0 ? string.Join(sep, list) : null` */
  function JoinedOrNull(list: Option<seq<string>>, sep: char): (r: Option<string>)
    ensures r.None? <==> list.None? || list.value == []
    ensures r.Some? && Text.SeparableItems(list.value, sep) ==> Text.SplitNonEmpty(r, sep) == list.value
  {
    if list.None? || list.value == [] then None
    else
      assert Text.SeparableItems(list.value, sep) ==> Text.SplitNonEmpty(Some(Text.Join(list.value, sep)), sep) == list.value by {
        if Text.SeparableItems(list.value, sep) { Text.SplitNonEmptyJoin(list.value, sep); }
      }
      Some(Text.Join(list.value, sep))
  }

  /** The property map after assigning `t` to the string property `name` (None assigns null). */
  function Assigned(values: map<string, Value>, name: string, t: Option<string>): map<string, Value>
  {
    if t.None? then values - {name} else values[name := TextVal(t.value)]
  }

  /** OrdinalIgnoreCase against "*" is plain equality: '*' has no other case. */
  lemma StarIgnoresCase(t: Option<string>)
    ensures Text.EqualsIgnoreCase("*", t) <==> t == Some("*")
  {
    if Text.EqualsIgnoreCase("*", t) {
      var c := t.value[0];
      assert Text.AsciiUpper(c) == '*';
      assert t.value == [c];
    }
  }

  /** A single item stored without separators is read back as that one item. */
  lemma SingleItem(item: string, sep: char)
    requires item != [] && sep !in item
    ensures Text.SplitNonEmpty(Some(item), sep) == [item]
  {
    Text.SplitNonEmptyJoin([item], sep);
  }

  class RdpProperties {
    var values: map<string, Value>

    /** `new TRdpProperties()`: every property null. */
    constructor ()
      ensures values == map[]
    {
      values := map[];
    }

    /** The string property `name`, None when it is null. */
    function TextOf(name: string): (t: Option<string>)
      reads this
      ensures t.Some? <==> name in values && values[name].TextVal?
      ensures t.Some? ==> values[name] == TextVal(t.value)
    {
      if name in values && values[name].TextVal? then Some(values[name].s) else None
    }

    /** `prop?.Split(sep, StringSplitOptions.RemoveEmptyEntries) ?? Enumerable.Empty<string>()` */
    function ListOf(name: string, sep: char): (items: seq<string>)
      reads this
      ensures TextOf(name).None? ==> items == []
      ensures TextOf(name).Some? ==> items == Text.RemoveEmpty(Text.SplitAll(TextOf(name).value, sep))
      ensures Text.SeparableItems(items, sep)
    {
      Text.SplitNonEmpty(TextOf(name), sep)
    }

    /** Assigns a string property; every other property keeps its value. */
    method AssignText(name: string, t: Option<string>)
      modifies this
      ensures values == Assigned(old(values), name, t)
      ensures TextOf(name) == t
      ensures forall other | other != name :: TextOf(other) == old(TextOf(other))
    {
      values := Assigned(values, name, t);
    }

    /** Stores a list joined by `sep`, or null for a null or empty list; a separable list reads back unchanged. */
    method AssignList(name: string, sep: char, list: Option<seq<string>>)
      modifies this
      ensures values == Assigned(old(values), name, JoinedOrNull(list, sep))
      ensures list.None? || list.value == [] ==> TextOf(name).None? && ListOf(name, sep) == []
      ensures list.Some? && Text.SeparableItems(list.value, sep) ==> ListOf(name, sep) == list.value
    {
      AssignText(name, JoinedOrNull(list, sep));
    }

    function GetCamerasToRedirect(): (items: seq<string>)
      reads this
      ensures TextOf(CamerasToRedirect).None? ==> items == []
      ensures TextOf(CamerasToRedirect).Some? ==>
                items == Text.RemoveEmpty(Text.SplitAll(TextOf(CamerasToRedirect).value, Semicolon))
      ensures Text.SeparableItems(items, Semicolon)
    {
      ListOf(CamerasToRedirect, Semicolon)
    }

    method SetCamerasToRedirect(list: Option<seq<string>>)
      modifies this
      ensures values == Assigned(old(values), CamerasToRedirect, JoinedOrNull(list, Semicolon))
      ensures list.Some? && Text.SeparableItems(list.value, Semicolon) ==> GetCamerasToRedirect() == list.value
    {
      AssignList(CamerasToRedirect, Semicolon, list);
    }

    /** Whether the camera list is "*", compared ignoring case. */
    function RedirectAllCameras(): (all: bool)
      reads this
      ensures all <==> TextOf(CamerasToRedirect) == Some("*")
    {
      StarIgnoresCase(TextOf(CamerasToRedirect));
      Text.EqualsIgnoreCase("*", TextOf(CamerasToRedirect))
    }

    method SetRedirectAllCameras()
      modifies this
      ensures values == old(values)[CamerasToRedirect := TextVal("*")]
      ensures RedirectAllCameras() && GetCamerasToRedirect() == ["*"]
    {
      AssignText(CamerasToRedirect, Some("*"));
      SingleItem("*", Semicolon);
    }

    function GetDevicesToRedirect(): (items: seq<string>)
      reads this
      ensures TextOf(DevicesToRedirect).None? ==> items == []
      ensures TextOf(DevicesToRedirect).Some? ==>
                items == Text.RemoveEmpty(Text.SplitAll(TextOf(DevicesToRedirect).value, Semicolon))
      ensures Text.SeparableItems(items, Semicolon)
    {
      ListOf(DevicesToRedirect, Semicolon)
    }

    method SetDevicesToRedirect(list: Option<seq<string>>)
      modifies this
      ensures values == Assigned(old(values), DevicesToRedirect, JoinedOrNull(list, Semicolon))
      ensures list.Some? && Text.SeparableItems(list.value, Semicolon) ==> GetDevicesToRedirect() == list.value
    {
      AssignList(DevicesToRedirect, Semicolon, list);
    }

    function RedirectAllDevices(): (all: bool)
      reads this
      ensures all <==> TextOf(DevicesToRedirect) == Some("*")
    {
      StarIgnoresCase(TextOf(DevicesToRedirect));
      Text.EqualsIgnoreCase("*", TextOf(DevicesToRedirect))
    }

    method SetRedirectAllDevices()
      modifies this
      ensures values == old(values)[DevicesToRedirect := TextVal("*")]
      ensures RedirectAllDevices() && !RedirectDynamicDevices() && GetDevicesToRedirect() == ["*"]
    {
      AssignText(DevicesToRedirect, Some("*"));
      SingleItem("*", Semicolon);
    }

    /** Whether the device list is "DynamicDevices", compared ignoring ASCII case; never together with "*". */
    function RedirectDynamicDevices(): (dynamic: bool)
      reads this
      ensures dynamic <==> TextOf(DevicesToRedirect).Some? && Text.Upper(TextOf(DevicesToRedirect).value) == Text.Upper("DynamicDevices")
      ensures TextOf(DevicesToRedirect) == Some("DynamicDevices") ==> dynamic
      ensures dynamic ==> TextOf(DevicesToRedirect).Some? && |TextOf(DevicesToRedirect).value| == 14
      ensures dynamic ==> !RedirectAllDevices()
    {
      Text.EqualsIgnoreCaseUpper("DynamicDevices", TextOf(DevicesToRedirect));
      Text.EqualsIgnoreCase("DynamicDevices", TextOf(DevicesToRedirect))
    }

    method SetRedirectDynamicDevices()
      modifies this
      ensures values == old(values)[DevicesToRedirect := TextVal("DynamicDevices")]
      ensures RedirectDynamicDevices() && !RedirectAllDevices()
      ensures GetDevicesToRedirect() == ["DynamicDevices"]
    {
      AssignText(DevicesToRedirect, Some("DynamicDevices"));
      SingleItem("DynamicDevices", Semicolon);
    }

    function GetDrivesToRedirect(): (items: seq<string>)
      reads this
      ensures TextOf(DrivesToRedirect).None? ==> items == []
      ensures TextOf(DrivesToRedirect).Some? ==>
                items == Text.RemoveEmpty(Text.SplitAll(TextOf(DrivesToRedirect).value, Semicolon))
      ensures Text.SeparableItems(items, Semicolon)
    {
      ListOf(DrivesToRedirect, Semicolon)
    }

    method SetDrivesToRedirect(list: Option<seq<string>>)
      modifies this
      ensures values == Assigned(old(values), DrivesToRedirect, JoinedOrNull(list, Semicolon))
      ensures list.Some? && Text.SeparableItems(list.value, Semicolon) ==> GetDrivesToRedirect() == list.value
    {
      AssignList(DrivesToRedirect, Semicolon, list);
    }

    function RedirectAllDrives(): (all: bool)
      reads this
      ensures all <==> TextOf(DrivesToRedirect) == Some("*")
    {
      StarIgnoresCase(TextOf(DrivesToRedirect));
      Text.EqualsIgnoreCase("*", TextOf(DrivesToRedirect))
    }

    method SetRedirectAllDrives()
      modifies this
      ensures values == old(values)[DrivesToRedirect := TextVal("*")]
      ensures RedirectAllDrives() && !RedirectDynamicDrives() && GetDrivesToRedirect() == ["*"]
    {
      AssignText(DrivesToRedirect, Some("*"));
      SingleItem("*", Semicolon);
    }

    /** Whether the drive list is "DynamicDrives", compared ignoring ASCII case; never together with "*". */
    function RedirectDynamicDrives(): (dynamic: bool)
      reads this
      ensures dynamic <==> TextOf(DrivesToRedirect).Some? && Text.Upper(TextOf(DrivesToRedirect).value) == Text.Upper("DynamicDrives")
      ensures TextOf(DrivesToRedirect) == Some("DynamicDrives") ==> dynamic
      ensures dynamic ==> TextOf(DrivesToRedirect).Some? && |TextOf(DrivesToRedirect).value| == 13
      ensures dynamic ==> !RedirectAllDrives()
    {
      Text.EqualsIgnoreCaseUpper("DynamicDrives", TextOf(DrivesToRedirect));
      Text.EqualsIgnoreCase("DynamicDrives", TextOf(DrivesToRedirect))
    }

    /**
     * As written: stores "DynamicDrive", one letter short of the "DynamicDrives"
     * the flag compares with, so the flag stays false after the call.
     */
    method SetRedirectDynamicDrives()
      modifies this
      ensures values == old(values)[DrivesToRedirect := TextVal("DynamicDrive")]
      ensures !RedirectDynamicDrives() && !RedirectAllDrives()
      ensures GetDrivesToRedirect() == ["DynamicDrive"]
    {
      AssignText(DrivesToRedirect, Some("DynamicDrive"));
      SingleItem("DynamicDrive", Semicolon);
    }

    /** The evidently intended setter: stores the text the flag recognises. */
    method SetRedirectDynamicDrivesIntended()
      modifies this
      ensures values == old(values)[DrivesToRedirect := TextVal("DynamicDrives")]
      ensures RedirectDynamicDrives() && !RedirectAllDrives()
      ensures GetDrivesToRedirect() == ["DynamicDrives"]
    {
      AssignText(DrivesToRedirect, Some("DynamicDrives"));
      SingleItem("DynamicDrives", Semicolon);
    }

    function GetUsbDevicesToRedirect(): (items: seq<string>)
      reads this
      ensures TextOf(UsbDevicesToRedirect).None? ==> items == []
      ensures TextOf(UsbDevicesToRedirect).Some? ==>
                items == Text.RemoveEmpty(Text.SplitAll(TextOf(UsbDevicesToRedirect).value, Semicolon))
      ensures Text.SeparableItems(items, Semicolon)
    {
      ListOf(UsbDevicesToRedirect, Semicolon)
    }

    method SetUsbDevicesToRedirect(list: Option<seq<string>>)
      modifies this
      ensures values == Assigned(old(values), UsbDevicesToRedirect, JoinedOrNull(list, Semicolon))
      ensures list.Some? && Text.SeparableItems(list.value, Semicolon) ==> GetUsbDevicesToRedirect() == list.value
    {
      AssignList(UsbDevicesToRedirect, Semicolon, list);
    }

    function GetSelectedMonitors(): (items: seq<string>)
      reads this
      ensures TextOf(SelectedMonitors).None? ==> items == []
      ensures TextOf(SelectedMonitors).Some? ==>
                items == Text.RemoveEmpty(Text.SplitAll(TextOf(SelectedMonitors).value, Comma))
      ensures Text.SeparableItems(items, Comma)
    {
      ListOf(SelectedMonitors, Comma)
    }

    method SetSelectedMonitors(list: Option<seq<string>>)
      modifies this
      ensures values == Assigned(old(values), SelectedMonitors, JoinedOrNull(list, Comma))
      ensures list.Some? && Text.SeparableItems(list.value, Comma) ==> GetSelectedMonitors() == list.value
    {
      AssignList(SelectedMonitors, Comma, list);
    }

    /** A new WindowPosition parsed from "winposstr", or null when that property is null. */
    method GetWindowPosition() returns (w: WindowPositions.WindowPosition?)
      ensures w == null <==> TextOf(WindowPositionString).None?
      ensures w != null ==> fresh(w) && w.Snapshot() == WindowPositions.Parse(TextOf(WindowPositionString))
    {
      var text := TextOf(WindowPositionString);
      if text.None? {
        w := null;
      } else {
        w := new WindowPositions.WindowPosition(text);
      }
    }

    /** Stores the position's text, or the documented default for null; the stored text parses back to the position. */
    method SetWindowPosition(w: WindowPositions.WindowPosition?)
      modifies this
      ensures values == old(values)[WindowPositionString :=
                TextVal(if w == null then WindowPositions.DefaultText else w.ToString())]
      ensures w != null && w.Snapshot().Valid() ==>
                WindowPositions.Parse(TextOf(WindowPositionString)) == w.Snapshot()
      ensures w == null ==>
                WindowPositions.Parse(TextOf(WindowPositionString)) == WindowPositions.Position(0, 3, 0, 0, 800, 600)
    {
      var text := if w == null then WindowPositions.DefaultText else w.ToString();
      AssignText(WindowPositionString, Some(text));
      WindowPositions.DefaultPosition();
    }
  }
}
