# RdpConnection serializer, modelled in Dafny

RdpConnection is a C# library that reads and writes Remote Desktop connection
settings. A settings class is a set of properties with attributes such as
`[DataMember(Name = ...)]`, `[IgnoreDataMember]`, `[DefaultValue]`,
`[AllowedValues]` and `[Range]`. The generic engine in `RdpSerializer.cs` turns
such an object into `.rdp` lines (`key:sign:text`), reads lines back into a new
object, and renders an object as an `rdp://` URI. A `throwIfNotValid` flag
chooses between the strict mode, which throws, and the lenient mode, which skips.

This project models that engine. It also models the attribute
`RdpAllowedValuesAttribute` and the `WindowPosition` value. Last, it models the
list and flag helpers of the property base classes and the window-position
accessors of the client properties.

How the model is built:

- **Reflection becomes an explicit schema.** `DataModel.Schema` is an ordered
  list of `Field` descriptors: C# name, declared kind, `[DataMember]` name,
  allowed set, `[RdpAllowedValues]`, range, default and the ignore flag.
- **An object is a map.** `DataModel.Instance` maps each property name to its
  value; a missing name stands for null.
- **`Catalog` holds two sample schemas,** transcribed from
  `RemoteDesktopServicePropertiesBase` and `RemoteDesktopUriProperties`.
- **Loops become methods.** `Serializer.Serialize`, `Serializer.Deserialize`
  (built from `BuildBindings` and `ApplyAll`) and `UriSerializer.Serialize`
  (with `WalkFields`) run loops the way the C# does. Each one is proved equal
  to a specification function: `SerializeLines`, `DeserializeLines` and
  `SerializeAsRdpUri`.
- **The properties of the engine are proved on those specification functions.**
- **The property object is a class.** `Properties.RdpProperties` holds its
  values in a `map` field. Its helper methods rewrite that field.
- **One class covers both base classes.** The helpers are the same code in
  `RemoteDesktopServicePropertiesBase.cs` (lines 213-279) and
  `RemoteDesktopPropertiesBase.cs` (lines 427-577). The table cites the first
  file; the second has the same members at:
  - cameras 427-450;
  - devices 456-492;
  - drives 500-536;
  - USB devices 542-550;
  - monitors 567-577.
- **`WindowPosition` is a class.** `WindowPositions.WindowPosition` has the six
  fields the constructor assigns one by one. Its specification function is
  `WindowPositions.Parse`.

Error handling in the code, as the model keeps it:

- A byte array is written with empty text, not as hexadecimal pairs.
- A malformed integer or malformed hexadecimal text throws in both modes,
  while an unknown key, an unknown sign or an odd-length byte text is
  skipped when lenient.
- A type mismatch in `SetValue` throws in both modes.
- A `[Range]` check on text that overflows 32 bits throws in both modes.
- The `[RdpAllowedValues]` sets are never consulted by the engine.

## Model

| member | source | states |
|---|---|---|
| RdpAllowed.RdpAllowedValuesAttribute.IsValid | src/RdpConnection/RdpAllowedValuesAttribute.cs:33-34 | a value is valid exactly when it equals one of the stored values |
| RdpAllowed.Create | src/RdpConnection/RdpAllowedValuesAttribute.cs:16-24 | `Values` is the argument array unchanged and in order; a null array is stored as an empty one |
| RdpAllowed.NullArgumentsAdmitNothing | src/RdpConnection/RdpAllowedValuesAttribute.cs:16-17 | built from a null array, the attribute admits nothing, not even null |
| Text.Utf16Length | src/RdpConnection/RdpSerializer.cs:271 | String.Length counts between one and two code units per character, exactly one each when all characters lie in the first plane |
| Text.Trim | src/RdpConnection/WindowPosition.cs:16 | the result starts and ends with non-white characters, and is empty exactly when the input is all white space |
| Text.TrimDropsWhiteEnds | src/RdpConnection/WindowPosition.cs:16 | the result is a slice of the input, and what lies before and after that slice is all white space |
| Text.TrimUnchanged | src/RdpConnection/WindowPosition.cs:16 | a text whose first and last characters are not white space is left unchanged |
| Text.SplitAll | src/RdpConnection/RemoteDesktopServicePropertiesBase.cs:213-214 | the pieces are free of the separator and, joined by it, give the text back |
| Text.RemoveEmpty | src/RdpConnection/RemoteDesktopServicePropertiesBase.cs:213-214 | keeps exactly the non-empty items: each kept item is non-empty and from the input, and each non-empty input item is kept |
| Text.RemoveEmptyAppend | src/RdpConnection/RemoteDesktopServicePropertiesBase.cs:213-214 | dropping empty items commutes with concatenation, so the kept items stay in input order |
| Text.SplitAppend | src/RdpConnection/RemoteDesktopServicePropertiesBase.cs:213-214 | a separator splits the text into the pieces before it followed by the pieces after it |
| Text.JoinAppend | src/RdpConnection/RemoteDesktopServicePropertiesBase.cs:216-217 | joining two non-empty lists puts one separator between their joins |
| Text.SplitNonEmpty | src/RdpConnection/RemoteDesktopServicePropertiesBase.cs:213-214 | null gives no items; every item is non-empty and free of the separator; a text without separator gives itself as the one item, or no item when empty |
| Text.SplitNonEmptyAppend | src/RdpConnection/RemoteDesktopServicePropertiesBase.cs:213-214 | the items of `x;y` are the items of x followed by the items of y |
| Text.SplitJoin | src/RdpConnection/RemoteDesktopServicePropertiesBase.cs:213-217 | splitting the join of separator-free items gives the items back |
| Text.SplitNonEmptyJoin | src/RdpConnection/RemoteDesktopServicePropertiesBase.cs:213-217 | a non-empty list of non-empty, separator-free items survives join-then-split-without-empties |
| Decimal.ParseInt32 | src/RdpConnection/RdpSerializer.cs:263 | a parse succeeds only with a 32-bit value that the unbounded parse also gives, and fails when that parse fails or leaves 32 bits |
| Decimal.IntTextShape | src/RdpConnection/RdpSerializer.cs:119 | the decimal text of an integer is non-empty, made of digits and '-', and has no surrounding white space |
| Decimal.ParseIntText | src/RdpConnection/RdpSerializer.cs:263 | parsing the decimal text of any integer gives it back |
| Decimal.ParseInt32Text | src/RdpConnection/RdpSerializer.cs:263 | parsing the decimal text of a 32-bit integer gives it back |
| Hex.DecodePairs | src/RdpConnection/RdpSerializer.cs:279 | even-length text decodes exactly when every character is a hex digit, into half as many bytes |
| Hex.DecodePairsAt | src/RdpConnection/RdpSerializer.cs:279 | byte k is the base-16 value of the characters at 2k and 2k+1 |
| Hex.EncodePairs | src/RdpConnection/RdpSerializer.cs:162 | the "X2" text of a byte array is upper-case hex, two characters per byte |
| Hex.DecodeEncode | src/RdpConnection/RdpSerializer.cs:157-163 | decoding the "X2" text of any byte array gives the array back |
| Hex.EncodeDecode | src/RdpConnection/RdpSerializer.cs:157-163 | encoding the decoded bytes of even-length upper-case hex gives the text back |
| Percent.EscapeDataString | src/RdpConnection/RdpSerializer.cs:444 | every escaped character is an RFC 3986 unreserved character or '%'; text of unreserved characters is left as it is; any other single character becomes "%XX" per UTF-8 byte |
| Percent.EscapeAppend | src/RdpConnection/RdpSerializer.cs:444 | the escape of a concatenation is the concatenation of the escapes |
| Percent.UnescapeEscape | src/RdpConnection/RdpSerializer.cs:444 | unescaping the escaped text gives the original text back |
| DataModel.RangeCheck | src/RdpConnection/RdpSerializer.cs:91-98 | with no range everything passes; an integer passes exactly when it lies within [min, max]; only text can overflow |
| LineGrammar.ScanFrom | src/RdpConnection/RdpSerializer.cs:232 | finds the leftmost start at or after i where the pattern can match, with its groups, or none when no such start exists |
| LineGrammar.MatchLine | src/RdpConnection/RdpSerializer.cs:232-234 | fails exactly when no start can match; otherwise the match is the leftmost one |
| LineGrammar.PartsAtShaped | src/RdpConnection/RdpSerializer.cs:242-244 | the captured groups are a match of the pattern whose last group runs to the end of the line or to a CR/LF |
| LineGrammar.ShapedIsStartOk | src/RdpConnection/RdpSerializer.cs:232 | any match at a start has the key and sign the scanner captures, and the greedy one is exactly its capture |
| LineGrammar.MatchLineMeaning | src/RdpConnection/RdpSerializer.cs:232-244 | the scanner agrees with the pattern read declaratively: no match exactly when no start fits, else the leftmost fitting start with the greedy rest |
| LineGrammar.KeyLineParses | src/RdpConnection/RdpSerializer.cs:232-244 | a line `key:sign:rest` with colon-free key and sign and a break-free rest reads back as exactly those groups |
| Serializer.SignOf | src/RdpConnection/RdpSerializer.cs:113-170 | a sign is one of "i", "s" and "b"; "b" goes exactly to a byte array in the line form; an unsupported type gets no sign |
| Serializer.SerializeField | src/RdpConnection/RdpSerializer.cs:63-172 | ignored, null or default properties pass silently; a written line carries the property's name, sign and text; in strict mode a written value passed its allowed and range checks; in lenient mode only a range overflow throws; a property that is not suppressed never passes silently in strict mode, and in lenient mode only for a missing [DataMember], a missing Name or an unsupported type |
| Serializer.LenientValidationIsAdvisory | src/RdpConnection/RdpSerializer.cs:82-98 | a lenient call writes the property whatever its checks say, and a strict call throws exactly when a check fails |
| Serializer.StrictEmitIsLenientEmit | src/RdpConnection/RdpSerializer.cs:82-108 | whatever the strict mode does without throwing, the lenient mode does the same |
| Serializer.SerializeFields | src/RdpConnection/RdpSerializer.cs:38-173 | at most one line per property; a lenient run can only stop at a range overflow |
| Serializer.SerializeFieldsAppend | src/RdpConnection/RdpSerializer.cs:38-173 | lines come in schema order: after properties that threw nothing, the next properties' lines follow theirs |
| Serializer.ErrorIsFinal | src/RdpConnection/RdpSerializer.cs:38-173 | once a property throws, later properties change nothing |
| Serializer.SerializeLines | src/RdpConnection/RdpSerializer.cs:18-174 | a null object gives no lines; at most one line per property; lenient errors are range overflows only |
| Serializer.Serialize | src/RdpConnection/RdpSerializer.cs:18-174 | the loop emits exactly the lines and the exception of SerializeLines |
| Serializer.BindingsErrorIsFinal | src/RdpConnection/RdpSerializer.cs:193-223 | once binding a property throws, the later properties change nothing |
| Serializer.ApplyErrorIsFinal | src/RdpConnection/RdpSerializer.cs:225-308 | once a line throws, the later lines change nothing |
| Serializer.BindField | src/RdpConnection/RdpSerializer.cs:211-222 | a property is indexed exactly when not ignored and named non-blank by [DataMember]; otherwise strict refuses it |
| Serializer.BindingsMeaning | src/RdpConnection/RdpSerializer.cs:193-223 | building the index succeeds exactly when names are distinct and, when strict, every non-ignored property has one; the index then maps each name to its property |
| Serializer.IndexLookup | src/RdpConnection/RdpSerializer.cs:222 | every indexable property is found under its own name |
| Serializer.CheckValue | src/RdpConnection/RdpSerializer.cs:289-305 | a value is assigned exactly when allowed, inside its range and of the declared type; a disallowed or out-of-range value is rejected (strict throws, lenient skips), an overflow or a type mismatch throws |
| Serializer.DecodeLine | src/RdpConnection/RdpSerializer.cs:232-305 | a line that does not match is rejected; a line that matches is decoded from its groups |
| Serializer.DecodeParts | src/RdpConnection/RdpSerializer.cs:246-305 | an unknown key, an unknown sign or byte text with an odd count of UTF-16 code units is rejected (strict throws, lenient skips); malformed integer or hex text throws, including byte text whose pairs split a surrogate pair; otherwise the decoded int, text or bytes go to CheckValue |
| Serializer.OutsidePlaneByteText | src/RdpConnection/RdpSerializer.cs:269-279 | a hex digit plus a character beyond the first plane is three code units and is rejected as odd-length; that character alone is two code units and throws as malformed hex |
| Serializer.LenientSkipsRecoverable | src/RdpConnection/RdpSerializer.cs:234-303 | the lenient mode skips exactly the lines the strict mode rejects with a recoverable error and otherwise does the same |
| Serializer.LineSteps | src/RdpConnection/RdpSerializer.cs:228-306 | one decoding step per line, in input order |
| Serializer.UnassignedStaysNull | src/RdpConnection/RdpSerializer.cs:225-308 | a property stays null exactly when no line assigns it |
| Serializer.LastAssignmentWins | src/RdpConnection/RdpSerializer.cs:225-308 | a property ends with the value of the last line that assigns it |
| Serializer.DeserializeLines | src/RdpConnection/RdpSerializer.cs:176-309 | a null result happens exactly for a type without [DataContract] in lenient mode |
| Serializer.BuildBindings | src/RdpConnection/RdpSerializer.cs:193-223 | the loop builds exactly the index, or stops with the exception, of BindingsUpTo |
| Serializer.ApplyAll | src/RdpConnection/RdpSerializer.cs:225-308 | the line loop leaves the object as ApplyLines specifies, or stops with its exception |
| Serializer.Deserialize | src/RdpConnection/RdpSerializer.cs:176-309 | the method returns a fresh object exactly as DeserializeLines specifies |
| RoundTrip.Written | src/RdpConnection/RdpSerializer.cs:63-80 | the written properties keep the object's own values |
| RoundTrip.LineReadsBack | src/RdpConnection/RdpSerializer.cs:113-137 | the line written for an integer or string property is read back as the assignment of the same value |
| RoundTrip.PrefixReadsBack | src/RdpConnection/RdpSerializer.cs:38-173 | the lines of the first k properties read back as those properties' written values |
| RoundTrip.SerializeThenDeserialize | src/RdpConnection/RdpSerializer.cs:18-309 | strict Deserialize of strict Serialize gives back every written property and leaves every other one null |
| RoundTrip.BytesLoseData | src/RdpConnection/RdpSerializer.cs:138-156 | a byte array is written as `key:b:` and reads back as an empty array |
| RoundTrip.BytesTextIntended | src/RdpConnection/RdpSerializer.cs:157-163 | the intended text of a byte array decodes back to the array |
| RoundTrip.BytesRoundTripIntended | src/RdpConnection/RdpSerializer.cs:157-163 | with the intended text, a byte-array line reads back as the array it was written from |
| UriSerializer.PairOf | src/RdpConnection/RdpSerializer.cs:361-444 | only a property that is not suppressed writes a fragment |
| UriSerializer.Walk | src/RdpConnection/RdpSerializer.cs:330-446 | the mark never exceeds the number of fragments; in lenient mode only a range overflow throws |
| UriSerializer.WalkFullAt | src/RdpConnection/RdpSerializer.cs:344-345 | the tracked position holds FullAddress's own fragment; when none is tracked, FullAddress wrote none |
| UriSerializer.WalkErrorIsFinal | src/RdpConnection/RdpSerializer.cs:333-446 | once a property throws, the later properties leave the exception unchanged |
| UriSerializer.MoveToFront | src/RdpConnection/RdpSerializer.cs:448-453 | the chosen element comes first, the others keep their relative order, and the multiset is unchanged |
| UriSerializer.Reorder | src/RdpConnection/RdpSerializer.cs:448-453 | mark 0 keeps the order; a mark within the fragments moves that one to the front; a mark past them throws ArgumentOutOfRangeException (the model's IndexOutOfRange error) in both modes |
| UriSerializer.SerializeAsRdpUri | src/RdpConnection/RdpSerializer.cs:311-456 | lenient without [DataContract] gives just "rdp://"; every URI starts with "rdp://"; loop and move errors propagate |
| UriSerializer.WalkFields | src/RdpConnection/RdpSerializer.cs:330-446 | the loop builds exactly the escaped fragments and the mark of Walk |
| UriSerializer.Serialize | src/RdpConnection/RdpSerializer.cs:311-456 | the method returns exactly the URI or the exception of SerializeAsRdpUri |
| UriSerializer.MoveFragments | src/RdpConnection/RdpSerializer.cs:448-453 | moving escaped fragments equals escaping moved pairs |
| UriSerializer.FragmentReadsBack | src/RdpConnection/RdpSerializer.cs:444 | a fragment is non-empty, has no '&', and splits at its first '=' into the escaped key and value |
| UriSerializer.FragmentsReadBack | src/RdpConnection/RdpSerializer.cs:444-455 | a sequence of fragments is separable on '&' and decodes to its pairs |
| UriSerializer.UriReadsBack | src/RdpConnection/RdpSerializer.cs:444-455 | after "rdp://", splitting on '&' and decoding each fragment gives the URI's pairs in order |
| UriSerializer.UriPairsArePermutation | src/RdpConnection/RdpSerializer.cs:448-453 | the URI carries exactly the written pairs, none lost or duplicated |
| UriSerializer.MarkIsFullAddress | src/RdpConnection/RdpSerializer.cs:344-345 | when FullAddress is written and names are distinct, the mark is where its own fragment went |
| UriSerializer.UriPairsIntended | src/RdpConnection/RdpSerializer.cs:448-453 | the intended move never throws, keeps the multiset, puts FullAddress's own pair first when written with the other pairs in their order (MoveToFront of its position), and otherwise keeps the order |
| UriSerializer.SerializeAsRdpUriIntended | src/RdpConnection/RdpSerializer.cs:311-456 | the URI built with the intended move |
| UriSerializer.AgreesWhenFullAddressWritten | src/RdpConnection/RdpSerializer.cs:344-453 | when FullAddress is written, the code as written gives the intended order |
| UriSerializer.FullAddressMarkQuirk | src/RdpConnection/RdpSerializer.cs:344-453 | with FullAddress null, the following fragment is moved to the front, or the call throws when there is none |
| UriSerializer.BytesUnsupported | src/RdpConnection/RdpSerializer.cs:436-442 | a byte array is an unsupported type in the URI form: strict throws, lenient skips it |
| Samples.ServiceBaseConstraints | src/RdpConnection/RemoteDesktopServicePropertiesBase.cs:191-209 | desktopheight and desktopwidth lie in [200, 8192]; the allowed sets of desktop size id and desktopscalefactor list null |
| Samples.DesktopHeightBelowRange | src/RdpConnection/RemoteDesktopServicePropertiesBase.cs:195-200 | a height of 100 throws OutOfRangeValue when strict and is written as `desktopheight:i:100` when lenient |
| Samples.UriAllowedValuesNotEnforced | src/RdpConnection/RemoteDesktopUriProperties.cs:15-18 | a value outside the [RdpAllowedValues] set is still written in strict mode |
| WindowPositions.Items | src/RdpConnection/WindowPosition.cs:14-16 | the items are the non-empty comma pieces, each trimmed |
| WindowPositions.ItemValue | src/RdpConnection/WindowPosition.cs:20-31 | a missing item reads as 0, an item that does not parse leaves 0, otherwise the parsed 32-bit value |
| WindowPositions.Parse | src/RdpConnection/WindowPosition.cs:9-39 | all six fields are 32-bit; null or white-space input leaves them all 0 |
| WindowPositions.Components | src/RdpConnection/WindowPosition.cs:41-42 | six components, 32-bit when the position is |
| WindowPositions.ComponentText | src/RdpConnection/WindowPosition.cs:41-42 | a component's text is a non-empty, comma-free, trimmed item that parses back to it |
| WindowPositions.ParseRender | src/RdpConnection/WindowPosition.cs:9-42 | parsing the rendered text of a position restores all six fields |
| WindowPositions.EmptyItemsSkipped | src/RdpConnection/WindowPosition.cs:14-23 | in "m,,n" the empty entry is dropped, so n is the window state and the rest are 0 |
| WindowPositions.DefaultPosition | src/RdpConnection/RemoteDesktopClientProperties.cs:195 | "0,3,0,0,800,600" renders from and parses to handle 0, state 3, an 800x600 window at the origin |
| WindowPositions.ParseSix | src/RdpConnection/WindowPosition.cs:20-31 | each of the six components is the parsed item at its place, or 0 when the item is missing or does not parse |
| WindowPositions.WindowPosition.constructor | src/RdpConnection/WindowPosition.cs:9-32 | the six fields are what Parse gives for the expression |
| WindowPositions.WindowPosition.ToString | src/RdpConnection/WindowPosition.cs:41-42 | parsing the text gives back the same six fields |
| Properties.JoinedOrNull | src/RdpConnection/RemoteDesktopServicePropertiesBase.cs:216-217 | null exactly for a null or empty list; a list of separable items splits back to itself |
| Text.EqualsIgnoreCaseUpper | src/RdpConnection/RemoteDesktopServicePropertiesBase.cs:239-241 | two texts are equal ignoring case exactly when their ASCII upper-case forms are equal |
| Properties.StarIgnoresCase | src/RdpConnection/RemoteDesktopServicePropertiesBase.cs:219-221 | "*" equals a text ignoring case exactly when the text is "*" |
| Properties.RdpProperties.constructor | src/RdpConnection/RdpSerializer.cs:226 | a new object has every property null |
| Properties.RdpProperties.GetCamerasToRedirect | src/RdpConnection/RemoteDesktopServicePropertiesBase.cs:213-214 | null gives no items; otherwise the items are the non-empty ';' pieces of the setting, in order |
| Properties.RdpProperties.SetCamerasToRedirect | src/RdpConnection/RemoteDesktopServicePropertiesBase.cs:216-217 | stores the ';' join or null; a separable list reads back unchanged |
| Properties.RdpProperties.RedirectAllCameras | src/RdpConnection/RemoteDesktopServicePropertiesBase.cs:219-221 | true exactly when the setting is "*" |
| Properties.RdpProperties.SetRedirectAllCameras | src/RdpConnection/RemoteDesktopServicePropertiesBase.cs:223-224 | stores "*", after which RedirectAllCameras holds and the list is ["*"] |
| Properties.RdpProperties.GetDevicesToRedirect | src/RdpConnection/RemoteDesktopServicePropertiesBase.cs:226-227 | null gives no items; otherwise the items are the non-empty ';' pieces of the setting, in order |
| Properties.RdpProperties.SetDevicesToRedirect | src/RdpConnection/RemoteDesktopServicePropertiesBase.cs:229-230 | stores the ';' join or null; a separable list reads back unchanged |
| Properties.RdpProperties.RedirectAllDevices | src/RdpConnection/RemoteDesktopServicePropertiesBase.cs:232-234 | true exactly when the setting is "*" |
| Properties.RdpProperties.SetRedirectAllDevices | src/RdpConnection/RemoteDesktopServicePropertiesBase.cs:236-237 | stores "*", after which RedirectAllDevices holds and RedirectDynamicDevices does not |
| Properties.RdpProperties.RedirectDynamicDevices | src/RdpConnection/RemoteDesktopServicePropertiesBase.cs:239-241 | true exactly when the setting equals "DynamicDevices" after ASCII upper-casing both; a passing setting is 14 characters long, so RedirectAllDevices fails for it |
| Properties.RdpProperties.SetRedirectDynamicDevices | src/RdpConnection/RemoteDesktopServicePropertiesBase.cs:243-244 | stores "DynamicDevices", after which RedirectDynamicDevices holds |
| Properties.RdpProperties.GetDrivesToRedirect | src/RdpConnection/RemoteDesktopServicePropertiesBase.cs:246-247 | null gives no items; otherwise the items are the non-empty ';' pieces of the setting, in order |
| Properties.RdpProperties.SetDrivesToRedirect | src/RdpConnection/RemoteDesktopServicePropertiesBase.cs:249-250 | stores the ';' join or null; a separable list reads back unchanged |
| Properties.RdpProperties.RedirectAllDrives | src/RdpConnection/RemoteDesktopServicePropertiesBase.cs:252-254 | true exactly when the setting is "*" |
| Properties.RdpProperties.SetRedirectAllDrives | src/RdpConnection/RemoteDesktopServicePropertiesBase.cs:256-257 | stores "*", after which RedirectAllDrives holds and RedirectDynamicDrives does not |
| Properties.RdpProperties.RedirectDynamicDrives | src/RdpConnection/RemoteDesktopServicePropertiesBase.cs:259-261 | true exactly when the setting equals "DynamicDrives" after ASCII upper-casing both; a passing setting is 13 characters long, so RedirectAllDrives fails for it |
| Properties.RdpProperties.SetRedirectDynamicDrives | src/RdpConnection/RemoteDesktopServicePropertiesBase.cs:263-264 | stores "DynamicDrive", after which RedirectDynamicDrives is false |
| Properties.RdpProperties.SetRedirectDynamicDrivesIntended | src/RdpConnection/RemoteDesktopServicePropertiesBase.cs:259-264 | storing "DynamicDrives" makes RedirectDynamicDrives hold |
| Properties.RdpProperties.GetUsbDevicesToRedirect | src/RdpConnection/RemoteDesktopServicePropertiesBase.cs:266-267 | null gives no items; otherwise the items are the non-empty ';' pieces of the setting, in order |
| Properties.RdpProperties.SetUsbDevicesToRedirect | src/RdpConnection/RemoteDesktopServicePropertiesBase.cs:269-270 | stores the ';' join or null; a separable list reads back unchanged |
| Properties.RdpProperties.GetSelectedMonitors | src/RdpConnection/RemoteDesktopServicePropertiesBase.cs:275-276 | null gives no items; otherwise the items are the non-empty ',' pieces of the setting, in order |
| Properties.RdpProperties.SetSelectedMonitors | src/RdpConnection/RemoteDesktopServicePropertiesBase.cs:278-279 | stores the ',' join or null; a separable list reads back unchanged |
| Properties.RdpProperties.GetWindowPosition | src/RdpConnection/RemoteDesktopClientProperties.cs:204-205 | null exactly when the setting is null; otherwise a new object holding the parse of the setting |
| Properties.RdpProperties.SetWindowPosition | src/RdpConnection/RemoteDesktopClientProperties.cs:207-208 | stores the object's text, or "0,3,0,0,800,600" for null; reading it back gives the same six fields |

## Left out

- Reflection is not modelled. Attribute discovery, `GetValue` and `SetValue` become the explicit schema and the value map. Property order is schema order.
- The `password 51` branch (RdpSerializer.cs:143-151) is not modelled. It compares the C# property name, so it can never fire, and it would only protect an empty array.
- The `ProtectedData` encryption in MicrosoftTerminalServiceClientProperties.cs is not part of this model.
- The `SetUsbDevicesToRedirect` overload over `DeviceSetupClassGuids` is not modelled: `Guid.ToString("B")` and the GUID table are not part of this model.
- Serializer.Serialize: the lazy `yield` iterator is modelled as the lines emitted before the exception, plus the exception.
- Integer widths are not modelled separately. All integer properties are int32, so `byte`, `long`, unsigned and nullable integers are not told apart, and the widening that `SetValue` would refuse for them is not modelled.
- Decimal.ParseInt32: `Convert.ToInt32` and `int.TryParse` are modelled with invariant culture. Allowed are an optional sign, decimal digits, and surrounding tab-to-CR or space characters. Trailing NUL characters and culture-specific signs are not modelled.
- Hex.DecodePairs: `Convert.ToByte(pair, 16)` is modelled as strict two-digit hex. Pairs such as "0x" or "+1" are treated as malformed.
- Text.EqualsIgnoreCase folds ASCII letters only; other case mappings of `OrdinalIgnoreCase` are not modelled.
- Percent.EscapeDataString: the escaping of lone surrogates is not modelled; every `char` is treated as one Unicode scalar value.
- Properties.RdpProperties: one class stands for every property class. A list or flag helper reads a setting only when it holds a string value.
- UriSerializer.Serialize: a null receiver is not modelled.
- The other catalog classes are not part of this model: RemoteDesktopServiceProperties.cs, AzureVirtualDesktopProperties.cs and the rest of the client properties. They only declare properties.
- The `[RdpAllowedValues]` sets are transcribed but never enforced, since the engine reads only `[AllowedValues]`.

## Findings

| source | as written | input that shows it | evidently intended | confidence | as-written member | corrected member |
|---|---|---|---|---|---|---|
| src/RdpConnection/RemoteDesktopServicePropertiesBase.cs:263-264 | `SetRedirectDynamicDrives` stores "DynamicDrive", but `RedirectDynamicDrives` tests for "DynamicDrives" | call SetRedirectDynamicDrives(), then RedirectDynamicDrives() is false | store "DynamicDrives", as the devices pair does | high, not executed | Properties.RdpProperties.SetRedirectDynamicDrives | Properties.RdpProperties.SetRedirectDynamicDrivesIntended |
| src/RdpConnection/RdpSerializer.cs:344-453 | the FullAddress mark is taken when the loop reaches FullAddress, even if FullAddress then writes nothing | properties a, FullAddress, b with FullAddress null: b's fragment is moved in front of a's; with b null too, the call throws ArgumentOutOfRangeException (the model's IndexOutOfRange error) even in lenient mode | move FullAddress's own fragment only when it is written | high, not executed | UriSerializer.FullAddressMarkQuirk | UriSerializer.UriPairsIntended |
| src/RdpConnection/RdpSerializer.cs:138-163 | a byte array is written with `string.Concat()`, that is empty text, and the hex branch below it is unreachable | any non-empty byte array, e.g. [1], is written as `key:b:` and reads back as [] | write the bytes as upper-case hex pairs, as the unreachable branch does | high, not executed | RoundTrip.BytesLoseData | RoundTrip.BytesRoundTripIntended |
