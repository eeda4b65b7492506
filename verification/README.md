# free5GC charging records, NGAP connections and GMM registration: a verified model

This project models four parts of the free5GC network functions and proves what they promise.

- **The charging-record codec of the CHF, in two layers.** `chf/cdr/asn` prints and parses values of Go types with a
  subset of the basic encoding rules of ITU-T X.690; `chf/cdr/cdrFile` packs the records into the file of section 6.1.1
  of 3GPP TS 32.297. Go reflection becomes a `Schema` with a matching `Value`; the parser takes the value already in its
  target, as the source fills targets in place.
- **The AMF's registry of NGAP connections.** The pool by AMF-UE-NGAP-ID, each RAN's list by RAN-UE-NGAP-ID, the links
  between a UE and its connections, and the ID allocator. `NgapRegistry.Registry` is the whole registry as a value,
  `NgapContext.AMFContext` the objects on the heap whose methods change it in place, and the two are tied method by method.
- **The GMM registration state machine.** `Gmm` gives what each callback does and which events it sends, `GmmObject.GmmUe`
  the object whose methods send those events from within; the answers of other network functions are inputs.
- **Three smaller cores.** The information-element stage of the generated NGAP handlers, the ABMF quota ledger, and the
  5G-GUTI with its lookup by 5G-S-TMSI.

## How it is laid out

| files | part |
|---|---|
| `Octets`, `Bits`, `Options`, `Walks` | octets and big-endian numbers, bitwise or, optional values, map iteration in any order |
| `BerHeader`, `BerEncoder`, `BerSchema`, `BerMarshal`, `BerParse` | headers, the two-pass encoder, types and values, printing, parsing |
| `BerOctets`, `BerReading` | which octets are printed for which values, and exactly which octets are parsed, into what |
| `BerSlips`, `BerRoundTrip`, `BerExact`, `BerChoice`, `BerLimits`, `BerFraming` | how tagged CHOICEs are misread, the round trip, which values survive it exactly, strings in tagged CHOICEs, inputs on which it fails, framing and SET order |
| `CdrBits`, `CdrFile`, `CdrOctets`, `CdrFileObject` | bit fields, the file as a value, its octets one by one, the object that encodes and decodes in place |
| `NgapObjects`, `NgapRegistry`, `NgapMoves`, `NgapLookup`, `NgapReset`, `NgapRuns`, `NgapContext` | the connection registry |
| `GmmTable`, `Gmm`, `GmmRuns`, `GmmOutcomes`, `GmmRequests`, `GmmUnchecked`, `GmmObject` | the GMM state machine: callbacks and events, what runs keep, what each message comes to and who is authenticated by it, messages that failed their check, the object |
| `NgapIes`, `Decimal`, `Abmf`, `Guti` | the smaller cores |

## Results that differ from what one would hope for

- A tagged CHOICE whose own header is longer than that of its alternative can come back changed, without an error
  (`BerLimits.TaggedChoiceGrows`); with tags of as many octets it never comes back intact, but for 126 or 127 octets under
  tag 1 (`BerExact.OnlySlips`). A tagged list of CHOICEs does not parse (`BerLimits.TaggedListOfChoicesFails`); a type
  whose first field has no tag never parses (`BerLimits.UntaggedFieldFails`, the case of
  `chf/cdr/cdrType/IPBinV6AddressWithPrefixLength.go:7`); negative integers shorter than eight octets come back positive
  (`BerEncoder.IntDecodes`).
- An INTEGER of more than eight octets is parsed as 0, and any NULL panics (`BerReading.PrimitiveIsExact`).
- A CDR file whose low release identifier alone is 7 comes back with the first octet of its first record as the low
  release extension (`CdrFile.LowExtensionMisread`); `CdrFile.RoundTrip` gives the exact condition.
- A connection whose RAN picks the ID 4294967295, which stands for "unspecified", is pooled but never listed, so NG Reset
  of the whole interface leaves it registered (`NgapReset.WholeResetIsExact`).
- The target of a handover has the UE that still holds the source, and removing a connection empties the place of the UE
  that it claims, whoever holds it. So once a handover has been acknowledged, NG Reset of the target RAN makes the UE lose
  its connection in the source RAN (`NgapReset.ResetDisplacesSource`); `NgapReset.ResetSparesOthers` and
  `NgapRegistry.ClearedIsExact` give the exact conditions. The release by an erroneous ID checks first and does no such
  harm (`NgapLookup.RemoveByInvalidIdIsExact`).
- Path Switch Request leaves the registry consistent only when the new RAN happens to choose the RAN ID the connection
  already has, or none was known (`NgapMoves.PathSwitchKeeps`); clearing the connection of a holding UE leaves that UE a
  reference to a connection that has let go of it (`NgapMoves.ClearHoldingKeeps`).
- A registration request that failed its integrity check reaches ContextSetup, without authentication or security mode
  command, when another AMF hands over a context with a key set (`GmmUnchecked.UncheckedReachesContextSetup`);
  `GmmUnchecked.UncheckedMessages` says exactly when, for every message of every sound UE.
- A deregistration request for the other access type leaves its own access in DeregistrationInitiated, where no message
  over that access is acted on any more (`GmmRuns.DeregistrationOutcome`, `GmmRuns.DeregistrationIgnores`).
- Three messages find a nil pointer: Authentication Failure while there is no authentication context, an EAP response
  without an EAP message, and Registration Complete after the other access has cleared the stored request
  (`GmmRuns.ReceiveIsSound`).
- An overdrawn account is granted almost 2^64 octets by its next credit request and owes nothing afterwards
  (`Abmf.OverdrawnIsForgiven`); its balance is reported as zero (`Abmf.NegativeReportsZero`).
- The configuration admits upper-case AMF IDs, but with one no UE is ever found by its 5G-S-TMSI
  (`Guti.FindByFiveGSTmsi`).

## Model

| member | source | states |
|---|---|---|
| `BerHeader.AppendTagAndLen` | Free5gc_Source_code/chf/cdr/asn/ber_marshal.go:104-157 | the loops that fill tag groups and length octets from the back write exactly the header of the class, form, tag and length given |
| `BerHeader.ParseTagAndLength` | Free5gc_Source_code/chf/cdr/asn/ber_unmarshal.go:9-57 | accepts, rejects or panics on any octets exactly as the header function says, with the same offset |
| `BerHeader.HeaderRoundTrip` | Free5gc_Source_code/chf/cdr/asn/ber_unmarshal.go:9-57 | parsing a printed header followed by anything gives the same header and its exact size, if and only if the tag is below 2^63 and the length below 2^24 |
| `BerHeader.TagIsMinimal` | Free5gc_Source_code/chf/cdr/asn/ber_marshal.go:113-135 | no shorter string of seven-bit groups denotes the tag (section 8.1.2 of X.690) |
| `BerHeader.LengthIsMinimal` | Free5gc_Source_code/chf/cdr/asn/ber_marshal.go:137-154 | no shorter definite form denotes the length (section 8.1.3 of X.690) |
| `BerHeader.ParseInt64` | Free5gc_Source_code/chf/cdr/asn/ber_unmarshal.go:65-77 | more than eight octets are an error; otherwise the unsigned number of the octets, wrapped to 64 bits, with no sign extension |
| `BerEncoder.IntLen` | Free5gc_Source_code/chf/cdr/asn/ber_marshal.go:78-92 | the two shifting loops count the octets of the two's complement form |
| `BerEncoder.IntIsShortest` | Free5gc_Source_code/chf/cdr/asn/ber_marshal.go:76-102 | no shorter two's complement string denotes the integer, and its first nine bits are not all equal (section 8.3.2 of X.690) |
| `BerEncoder.IntDecodes` | Free5gc_Source_code/chf/cdr/asn/ber_unmarshal.go:65-77 | the decoded integer is congruent to the original modulo 256^length, and equal if and only if it is not negative or takes eight octets |
| `BerEncoder.Len` | Free5gc_Source_code/chf/cdr/asn/ber_marshal.go:43-69 | the first pass measures exactly the content of any encoder tree |
| `BerEncoder.Encode` | Free5gc_Source_code/chf/cdr/asn/ber_marshal.go:54-102 | the second pass writes each octet of the content of any encoder tree once, from the given offset of the buffer, and changes nothing outside it |
| `BerEncoder.EncodeInt` | Free5gc_Source_code/chf/cdr/asn/ber_marshal.go:94-102 | the loop from the last octet backwards leaves the two's complement form in place and the rest untouched |
| `BerMarshal.BerMarshalWithParams` | Free5gc_Source_code/chf/cdr/asn/ber_marshal.go:353-366 | measuring, allocating and encoding in place yields the concatenation the simple printer defines, or its error; the `BerOctets` rows say what that is, octet by octet |
| `BerMarshal.DeclaredLengths` | Free5gc_Source_code/chf/cdr/asn/ber_marshal.go:174-350 | at every level of every tree built, the length in the header is that of the content that follows |
| `BerOctets.PrimitiveOctets` | Free5gc_Source_code/chf/cdr/asn/ber_marshal.go:191-230 | a value of a primitive type is one primitive element of class 0 with tag 1, 2, 3, 4, 5, 10 or the string type, or with the field's context tag in its place, or inside a constructed one with that tag when it is explicit; its contents are 255 or 0, the two's complement form, an octet on the unused bits and the bits, the octets, or nothing |
| `BerOctets.StructOctets` | Free5gc_Source_code/chf/cdr/asn/ber_marshal.go:266-304 | a struct is a constructed element with tag 16, or 17 for a SET, tagged in the same three ways, and its contents are what its present fields marshal to by themselves, in the order of declaration |
| `BerOctets.ListOctets` | Free5gc_Source_code/chf/cdr/asn/ber_marshal.go:305-324 | so is a list, with what its elements marshal to under the list's parameters without the tag; a nil list has no contents |
| `BerOctets.TransparentOctets` | Free5gc_Source_code/chf/cdr/asn/ber_marshal.go:182-184 | pointers, wrappers and a CHOICE without a tag marshal as what they hold, the CHOICE with its alternative's own header |
| `BerOctets.TaggedChoiceOctets` | Free5gc_Source_code/chf/cdr/asn/ber_marshal.go:254-265 | a CHOICE with a tag is a constructed context element with that tag around what its alternative marshals to; an explicit tag puts a constructed element of class 0 and tag 0 between |
| `BerOctets.MarshalsExactly` | Free5gc_Source_code/chf/cdr/asn/ber_marshal.go:174-350 | a typed value marshals if and only if no nil pointer is reached but in an optional field, every struct has a present field, every CHOICE a valid alternative, no open type is met, and only pointers, lists and octet strings are optional |
| `BerOctets.MarshalErrors` | Free5gc_Source_code/chf/cdr/asn/ber_marshal.go:175-303 | a nil pointer, a CHOICE without an alternative and an open type are errors; an alternative out of range and a struct without a present field panic |
| `BerOctets.UsageOctets` | Free5gc_Source_code/chf/cdr/cdrType/ChargingRecord.go:17 | a list with tag 5 of one SEQUENCE with the integer 1 under tag 0 marshals to A5 05 30 03 80 01 01 |
| `BerOctets.EdgeOctets` | Free5gc_Source_code/chf/cdr/asn/ber_marshal.go:76-157 | tag and length 300 print as 9F 82 2C 82 01 2C; 300, 127, 128, -128 and -129 print most significant octet first, in as many octets as their sign needs |
| `BerParse.ParseField` | Free5gc_Source_code/chf/cdr/asn/ber_unmarshal.go:86-314 | the imperative parser terminates and gives the value, error or panic of the parsing function for any type, target, octets and parameters |
| `BerParse.ParseStruct` | Free5gc_Source_code/chf/cdr/asn/ber_unmarshal.go:211-280 | the loops over elements fill the fields as the step-by-step function does, for SEQUENCE and SET |
| `BerParse.ParseChoice` | Free5gc_Source_code/chf/cdr/asn/ber_unmarshal.go:173-208 | the alternative is found by the outer or the embedded tag, and parsed from the offset the source computes |
| `BerParse.ParseSlice` | Free5gc_Source_code/chf/cdr/asn/ber_unmarshal.go:281-307 | the list is cut into pieces, each parsed into a fresh element with the parameters of the list |
| `BerReading.HeaderIsRead` | Free5gc_Source_code/chf/cdr/asn/ber_unmarshal.go:9-57 | an identifier octet, at most nine groups of which only the last lacks the top bit, and a short length or one of at most three octets, minimal or not, are read as the class, form, tag and length they denote, whatever follows |
| `BerReading.HeaderWasRead` | Free5gc_Source_code/chf/cdr/asn/ber_unmarshal.go:9-57 | and every header that is read consists of such octets |
| `BerReading.PrimitiveIsExact` | Free5gc_Source_code/chf/cdr/asn/ber_unmarshal.go:103-147 | from any octets behind an acceptable header: any octet but 0 is TRUE, up to seven octets are an unsigned integer, eight a signed one and more give 0, the first octet of a bit string is taken off its length; NULL and an empty BOOLEAN or BIT STRING panic |
| `BerReading.PointerIsExact` | Free5gc_Source_code/chf/cdr/asn/ber_unmarshal.go:91-95 | a pointer is parsed into a fresh target, a wrapper as what it wraps |
| `BerReading.ChoiceIsExact` | Free5gc_Source_code/chf/cdr/asn/ber_unmarshal.go:173-208 | a CHOICE is parsed from any octets if and only if its header, or with a tag the next one, has the tag of an alternative, the first such alternative parses, from the start or from as many octets on as the second header takes, and it is no open type |
| `BerReading.ListIsExact` | Free5gc_Source_code/chf/cdr/asn/ber_unmarshal.go:281-307 | a list is parsed from any octets if and only if its contents are complete elements end to end, each of which parses into a fresh element |
| `BerReading.StructIsExact` | Free5gc_Source_code/chf/cdr/asn/ber_unmarshal.go:210-280 | a struct is parsed from any octets if and only if its contents are complete elements end to end, each going to the first field with its tag, past no field without one: in a SEQUENCE behind the field of the element before, in a SET anywhere; each is parsed into what its field holds by then, and an open type admits none |
| `BerRoundTrip.RoundTrip` | Free5gc_Source_code/chf/cdr/asn/ber_unmarshal.go:86-314 | for every schema, value and parameters in the sub-language `Codable`, marshalling succeeds and, below 2^24 octets, parsing returns exactly the value |
| `BerRoundTrip.PrimitiveRoundTripsExactly` | Free5gc_Source_code/chf/cdr/asn/ber_unmarshal.go:59-147 | for a primitive type the value comes back if and only if it is in the sub-language: sign and length of integers, bit length against octets, no nil octet string, no NULL |
| `BerRoundTrip.BitStringDecodes` | Free5gc_Source_code/chf/cdr/asn/ber_unmarshal.go:59-63 | a bit string comes back if and only if it has one octet more than whole octets of bits, or its length wraps around with no octets |
| `BerExact.RoundTripsExactly` | Free5gc_Source_code/chf/cdr/asn/ber_unmarshal.go:86-314 | for all types whose tags and options allow it and whose tagged CHOICEs have tags of as many octets as their alternatives, a value is marshalled to fewer than 2^24 octets and parsed back to itself if and only if it is `Codable` |
| `BerExact.FieldsAreSourced` | Free5gc_Source_code/chf/cdr/asn/ber_unmarshal.go:211-280 | when the struct loop ends well, every field that is present holds what its own element parses to, and from nowhere else |
| `BerExact.OnlySlips` | Free5gc_Source_code/chf/cdr/asn/ber_unmarshal.go:180-206 | a tagged CHOICE that comes back has headers of the same size, or is the one exception: 126 or 127 octets of a primitive alternative with tag 1 under a tag of one octet |
| `BerRoundTrip.SlipIsParsed` | Free5gc_Source_code/chf/cdr/asn/ber_unmarshal.go:180-206 | and in that exception the parser, starting one octet too early, finds another header with the same contents behind it |
| `BerChoice.StringChoiceExactly` | Free5gc_Source_code/chf/cdr/asn/ber_unmarshal.go:180-206 | a tagged CHOICE with a string of octets, characters or bits in it, whatever the sizes of the tags, comes back if and only if the string does, the other alternatives are zero, and the two headers, read from the size of the second on, make one that ends where they end and claims no more than follows |
| `BerRoundTrip.TagIsForgotten` | Free5gc_Source_code/chf/cdr/asn/ber_unmarshal.go:297-304 | the tag passed on to the elements of a list has no effect unless an element reaches a CHOICE |
| `BerLimits.TaggedChoiceGrows` | Free5gc_Source_code/chf/cdr/asn/ber_unmarshal.go:180-206 | 126 octets in a CHOICE with its own tag come back as 127, without an error |
| `BerLimits.DifferentTagSizesMayPass` | Free5gc_Source_code/chf/cdr/asn/ber_unmarshal.go:180-206 | with tags of different sizes a value can come back although the headers differ |
| `BerLimits.TaggedListOfChoicesFails` | Free5gc_Source_code/chf/cdr/asn/ber_marshal.go:310-320 | a tagged list of CHOICEs marshals, and parsing the result fails |
| `BerLimits.UntaggedFieldFails` | Free5gc_Source_code/chf/cdr/asn/ber_unmarshal.go:233-248 | a struct whose first field has no tag fails to parse any content |
| `BerFraming.ListIsFramed` | Free5gc_Source_code/chf/cdr/asn/ber_unmarshal.go:281-295 | when a list is cut without an error its pieces are complete elements of at least two octets and concatenate to the whole content |
| `BerFraming.CutTakesElement` | Free5gc_Source_code/chf/cdr/asn/ber_unmarshal.go:214-232 | one accepted step advances over exactly one complete element, by two octets at least |
| `BerFraming.SetOrderIsIrrelevant` | Free5gc_Source_code/chf/cdr/asn/ber_unmarshal.go:250-279 | under the same header any permutation of elements with different tags leaves the same value in the same target, or fails (section 8.11 of X.690) |
| `CdrBits.OctetRoundTrip` | Free5gc_Source_code/chf/cdr/cdrFile/cdrFile.go:158-183 | three and five bits come back from their octet if and only if they fit |
| `CdrBits.OctetIsCanonical` | Free5gc_Source_code/chf/cdr/cdrFile/cdrFile.go:476-479 | packing the two fields read from an octet gives that octet |
| `CdrBits.TimeStampRoundTrip` | Free5gc_Source_code/chf/cdr/cdrFile/cdrFile.go:205-242 | the seven fields come back from the or-ed 32-bit word if and only if each fits its bits |
| `CdrBits.TimeStampIsCanonical` | Free5gc_Source_code/chf/cdr/cdrFile/cdrFile.go:404-460 | packing what was unpacked gives the same word, for all 2^32 of them |
| `CdrBits.PackedValue` | Free5gc_Source_code/chf/cdr/cdrFile/cdrFile.go:205-242 | the word is month, date, hour, minute, sign, hours and minutes of the deviation, from the top bit down in 4, 5, 5, 6, 1, 5 and 6 bits |
| `CdrOctets.HeaderOctets` | Free5gc_Source_code/chf/cdr/cdrFile/cdrFile.go:130-321 | a header with bit fields in range is written octet by octet as TS 32.297 numbers them: words big-endian at 0, 4, 18 and 22, release and version in the octets 8 and 9, times at 10 and 14, reason, address and indicator at 26, 27 and 47, the two lengths before their contents, then an octet for each release that is 7, and no more |
| `CdrOctets.DecodedOctets` | Free5gc_Source_code/chf/cdr/cdrFile/cdrFile.go:395-502 | and a header is read from just those octets of any data, but for the low release's extension |
| `CdrOctets.HeaderIsDecoded` | Free5gc_Source_code/chf/cdr/cdrFile/cdrFile.go:401-502 | a header is read if and only if both lengths stay within the data and below 2^16, and there is an octet at the end for the high extension and one behind it for the low one |
| `CdrOctets.CdrOctets` | Free5gc_Source_code/chf/cdr/cdrFile/cdrFile.go:323-355 | a record is its length, release with version, format with specification, an extension for release 7, and its contents |
| `CdrOctets.FileOctets` | Free5gc_Source_code/chf/cdr/cdrFile/cdrFile.go:357-393 | a file is its header and then each record in its place |
| `CdrOctets.FileIsRead` | Free5gc_Source_code/chf/cdr/cdrFile/cdrFile.go:395-540 | a file is read from any data, whatever follows it, if and only if its header is and as many faithful records as that says lie behind it end to end |
| `CdrFile.CdrRoundTrip` | Free5gc_Source_code/chf/cdr/cdrFile/cdrFile.go:323-355 | a faithful record lying anywhere in the data is read back, and reading ends where it ends |
| `CdrFile.CdrIsCanonical` | Free5gc_Source_code/chf/cdr/cdrFile/cdrFile.go:506-537 | any record read is faithful and, below 2^32 octets, re-encodes to the octets it was read from |
| `CdrFile.CdrIsRead` | Free5gc_Source_code/chf/cdr/cdrFile/cdrFile.go:323-355 | a record and an end are read at an offset if and only if the record is faithful and its header as printed, followed by its octets, lies between the two |
| `CdrFile.CdrsRoundTrip` | Free5gc_Source_code/chf/cdr/cdrFile/cdrFile.go:506-537 | any number of faithful records laid end to end are read back, up to the end of the data |
| `CdrFile.BoundsFound` | Free5gc_Source_code/chf/cdr/cdrFile/cdrFile.go:463-467 | the uint16 indices name the filter and the extension if and only if they do without wrapping; a wrapped index always panics |
| `CdrFile.ReadsBack` | Free5gc_Source_code/chf/cdr/cdrFile/cdrFile.go:395-540 | decoding an encoded file gives the file, but for a low release extension read from where the decoder looks for it |
| `CdrFile.RoundTrip` | Free5gc_Source_code/chf/cdr/cdrFile/cdrFile.go:395-540 | a file below 2^32 octets comes back from its encoding if and only if it is faithful: fields in range, truthful lengths and count, unused extensions zero, and the low extension where it is looked for |
| `CdrFile.DecodedIsFaithful` | Free5gc_Source_code/chf/cdr/cdrFile/cdrFile.go:473-536 | whatever is decoded has fields in range and truthful lengths and count |
| `CdrFile.DecodedIsCanonical` | Free5gc_Source_code/chf/cdr/cdrFile/cdrFile.go:395-540 | re-encoding what was decoded reproduces the octets consumed if and only if the low extension was read from its place |
| `CdrFile.LowExtensionMisread` | Free5gc_Source_code/chf/cdr/cdrFile/cdrFile.go:495-502 | with a low release of 7 alone, every faithful file with a record comes back with the record's first octet as the low extension |
| `CdrFileObject.EncodeFileHeader` | Free5gc_Source_code/chf/cdr/cdrFile/cdrFile.go:130-321 | the field-by-field appends give the header's pieces in order, with an extension only for release 7 |
| `CdrFileObject.ReadCdr` | Free5gc_Source_code/chf/cdr/cdrFile/cdrFile.go:506-537 | one turn of the loop reads exactly the faithful record whose octets lie at the offset, or panics when there is none |
| `CdrFileObject.CDRFile.DecodeFileHeader` | Free5gc_Source_code/chf/cdr/cdrFile/cdrFile.go:401-502 | the object's header becomes the one that lies in the data field by field; a panic leaves it as far as it was replaced |
| `CdrFileObject.CDRFile.Encoding` | Free5gc_Source_code/chf/cdr/cdrFile/cdrFile.go:357-393 | the loop over the record list yields the encoding of the object's header and records |
| `CdrFileObject.CDRFile.Decoding` | Free5gc_Source_code/chf/cdr/cdrFile/cdrFile.go:395-540 | the receiver's header is replaced and the records read are appended to those it has; a panic, exactly when the decoding function panics, leaves the header as far as it was read and the records before it appended |
| `NgapRegistry.WithoutKeeps` | Free5gc_Source_code/amf/internal/context/ran_ue.go:73-92 | taking any set of connections out keeps pool, lists, slots and allocator consistent, whether or not others lose the places they claim |
| `NgapRegistry.OthersUntouched` | Free5gc_Source_code/amf/internal/context/ran_ue.go:73-92 | when all that went belonged to one RAN, every connection and list of another RAN is as before, and the UE of such a connection holds it still unless one that went claims its place |
| `NgapRegistry.ClearedIsExact` | Free5gc_Source_code/amf/internal/context/ran_ue.go:81-84 | removal leaves all other links as they were if and only if each connection that goes and has a UE is the one the UE holds, or its place is empty or held by another that goes |
| `NgapRegistry.RemoveIsExact` | Free5gc_Source_code/amf/internal/context/ran_ue.go:73-92 | removing a registered connection takes it out of pool and list and empties the place it claims with its UE; it takes out nothing else if and only if that place is not another's |
| `NgapRegistry.NewKeeps` | Free5gc_Source_code/amf/internal/context/amf_ran.go:58-80 | a new connection leaves the registry consistent if and only if its RAN ID is free in that RAN or unspecified |
| `NgapRegistry.NewIsExact` | Free5gc_Source_code/amf/internal/context/amf_ran.go:58-80 | the new connection is registered with the RAN ID and AMF ID given, its RAN, and no UE, and listed under the RAN ID unless that is unspecified; every other connection, list entry and link is as before |
| `NgapRegistry.InitialKeeps` | Free5gc_Source_code/amf/internal/ngap/handler.go:420-438 | removing the stale holder of the RAN ID first, Initial UE Message always leaves the registry consistent |
| `NgapRegistry.InitialIsExact` | Free5gc_Source_code/amf/internal/ngap/handler.go:420-438 | the new connection is registered and listed under the message's RAN ID, a stale holder of that ID is gone and has no UE, and every other connection and list entry is as before |
| `NgapRegistry.AttachKeeps` | Free5gc_Source_code/amf/internal/context/amf_ue.go:335-339 | attaching leaves the registry consistent if and only if no other UE holds the connection |
| `NgapRegistry.AttachHolds` | Free5gc_Source_code/amf/internal/context/amf_ue.go:335-339 | and the UE goes on holding every connection that has it if and only if it displaces none |
| `NgapRegistry.AttachIsExact` | Free5gc_Source_code/amf/internal/context/amf_ue.go:335-339 | the connection has the UE and is in the place of its access type; nothing else changes |
| `NgapMoves.AttachReleasingKeeps` | Free5gc_Source_code/amf/internal/gmm/common/user_profile.go:57-70 | releasing the older connection first, attaching keeps the registry consistent if and only if no other UE holds the new one, and never leaves the UE a connection it does not hold |
| `NgapMoves.AttachReleasingIsExact` | Free5gc_Source_code/amf/internal/gmm/common/user_profile.go:57-70 | besides, the older connection in that place, if it is another, has no UE |
| `NgapMoves.SwitchKeeps` | Free5gc_Source_code/amf/internal/context/ran_ue.go:98-124 | switching keeps the registry consistent if and only if the new RAN ID is specified and not another's, and the access type stays for a UE that holds the connection |
| `NgapMoves.SwitchIsExact` | Free5gc_Source_code/amf/internal/context/ran_ue.go:98-124 | the connection is in the new RAN, listed under the new ID, and no longer under the old one in the old RAN; nothing else changes |
| `NgapMoves.PathSwitchKeeps` | Free5gc_Source_code/amf/internal/ngap/handler.go:1265-1346 | storing the new RAN ID before switching keeps the registry consistent if and only if it is the present one, or none was known and no other connection of the old RAN has it |
| `NgapMoves.UnlinkKeeps` | Free5gc_Source_code/amf/internal/ngap/handler.go:1066-1074 | the release of a superseded UE's connection keeps the registry consistent |
| `NgapMoves.UnlinkIsExact` | Free5gc_Source_code/amf/internal/ngap/handler.go:1066-1074 | the connection has no UE and the place it claims is empty; nothing else changes |
| `NgapMoves.ClearHoldingKeeps` | Free5gc_Source_code/amf/internal/gmm/common/user_profile.go:91-100 | taking the UE from a connection alone keeps the registry consistent if and only if the UE did not hold it |
| `NgapMoves.PrepareKeeps` | Free5gc_Source_code/amf/internal/ngap/message/send.go:522-530 | preparing a handover keeps the registry consistent; the target has the source's UE and is not held by it, and the source stays held |
| `NgapMoves.PrepareIsExact` | Free5gc_Source_code/amf/internal/ngap/message/send.go:485-530 | the target is registered in its RAN with the source's UE, no RAN ID and the source, which names it; without a UE, or with a target already, nothing changes |
| `NgapMoves.AcknowledgeKeeps` | Free5gc_Source_code/amf/internal/ngap/handler.go:1376-1379 | storing the target's RAN ID keeps the registry consistent if and only if it is specified and free in that RAN |
| `NgapMoves.AcknowledgeIsExact` | Free5gc_Source_code/amf/internal/ngap/handler.go:1376-1379 | the target has the RAN ID and is listed under it; nothing else changes |
| `NgapMoves.CompleteKeeps` | Free5gc_Source_code/amf/internal/gmm/common/user_profile.go:72-89 | Handover Notify keeps the registry consistent if and only if the source, if it is held at all, is in the place that the target takes |
| `NgapMoves.CompleteHolds` | Free5gc_Source_code/amf/internal/gmm/common/user_profile.go:72-89 | after it the UE holds every connection that has it if and only if there was no third one |
| `NgapMoves.CompleteIsExact` | Free5gc_Source_code/amf/internal/gmm/common/user_profile.go:72-89 | the source has no UE, and the target's UE holds the target; nothing else changes |
| `NgapLookup.RemoveByInvalidIdIsExact` | Free5gc_Source_code/amf/internal/ngap/handler.go:2118-2136 | checking first whether the UE holds it, the release takes out that connection and nothing else; plain removal does the same if and only if the place claimed is not another's |
| `NgapLookup.RemoveByInvalidUEIsExact` | Free5gc_Source_code/amf/internal/ngap/handler.go:2143-2154 | releasing by the AMF's ID and then by the RAN's takes out exactly this RAN's connections that have either |
| `NgapLookup.RanUeFindIsSound` | Free5gc_Source_code/amf/internal/ngap/handler.go:2161-2241 | a connection is found if and only if the IDs are consistent with it (section 10.6 of TS 38.413), and then nothing changes; otherwise exactly the erroneous connections are released, and the cause is an inconsistent remote ID if and only if a connection of this RAN is registered under the AMF's ID, and an unknown local ID otherwise |
| `NgapLookup.ErroneousAreGone` | Free5gc_Source_code/amf/internal/ngap/handler.go:2138-2154 | after a failed check no connection of this RAN is registered under either ID; every other connection, its hold by its UE, and other RANs' lists are as before |
| `NgapReset.WholeResetIsExact` | Free5gc_Source_code/amf/internal/context/amf_ran.go:82-91 | the RAN's list is empty, exactly its connections with a RAN ID are gone with their IDs free and their UEs detached, other RANs' connections and lists are untouched, and a connection that stays is held as before unless one that went claims its place |
| `NgapReset.NamedByAre` | Free5gc_Source_code/amf/internal/ngap/handler.go:147-165 | the items of a partial reset name exactly this RAN's registered connections with a known RAN ID that an item names: by the AMF's ID if it has one, and by the RAN's ID otherwise |
| `NgapReset.PartialResetIsExact` | Free5gc_Source_code/amf/internal/ngap/handler.go:147-170 | exactly those are gone, with their IDs free and their UEs detached; every other connection is as before, and held as before unless one that went claims its place |
| `NgapReset.ResetSparesOthers` | Free5gc_Source_code/amf/internal/ngap/handler.go:131-135 | the links of other RANs' connections are as before if and only if none of them is in a place that the RAN's list claims |
| `NgapReset.ResetDisplacesSource` | Free5gc_Source_code/amf/internal/context/ran_ue.go:73-92 | after an acknowledged handover the reset of the target RAN makes the UE lose the source, which stays registered with it |
| `NgapReset.UeRemovalIsExact` | Free5gc_Source_code/amf/internal/context/amf_ue.go:314-318 | removing a UE takes out exactly the connections it holds and no other link; no connection keeps the removed UE if and only if it held all that had it |
| `NgapRuns.StepKeeps` | Free5gc_Source_code/amf/internal/context/amf_ran.go:58-91 | every registry operation, handover included, keeps the invariant in the conditions that the exact results above show to be needed; the handlers do not check that an acknowledged RAN ID is free nor that a handover keeps the access type |
| `NgapRuns.RunKeeps` | Free5gc_Source_code/amf/internal/context/amf_ran.go:58-91 | every registry of every run from the empty one satisfies the invariant |
| `NgapRuns.RunHolds` | Free5gc_Source_code/amf/internal/context/common_function.go:54-71 | in every run a UE that holds every connection that has it goes on doing so until a handover of it is prepared |
| `NgapRuns.HandoverRestores` | Free5gc_Source_code/amf/internal/gmm/common/user_profile.go:72-89 | and once a handover has been completed with no third connection left over it does so again, until the next is prepared |
| `NgapRuns.RunPairs` | Free5gc_Source_code/amf/internal/context/common_function.go:54-71 | in every run the source and the target of a handover name each other |
| `NgapRuns.RunKeepsId` | Free5gc_Source_code/amf/internal/context/ran_ue.go:29-32 | through any run a connection keeps its AMF-UE-NGAP-ID |
| `NgapRuns.NoSharing` | Free5gc_Source_code/amf/internal/context/amf_ran.go:58-80 | in every run two registered connections never share an AMF ID or a RAN ID in one RAN, and share a UE and access type only after a handover of that UE was prepared |
| `NgapContext.AMFContext.NewRanUe` | Free5gc_Source_code/amf/internal/context/amf_ran.go:58-80 | the new object enters pool and list as the registry value says, or an exhausted allocator changes nothing |
| `NgapContext.AMFContext.Remove` | Free5gc_Source_code/amf/internal/context/ran_ue.go:73-96 | the deletions and detachments in place give the registry value's removal; no connection or no RAN is an error that changes nothing |
| `NgapContext.AMFContext.RemoveAllRanUe` | Free5gc_Source_code/amf/internal/context/amf_ran.go:82-91 | ranging over the list in any order while it shrinks takes out the connections listed, with the places they claim |
| `NgapContext.AMFContext.SwitchToRan` | Free5gc_Source_code/amf/internal/context/ran_ue.go:98-124 | one list loses and the other gains the connection, whose RAN and RAN ID change |
| `NgapContext.AMFContext.PrepareHandover` | Free5gc_Source_code/amf/internal/ngap/message/send.go:485-530 | the target enters the pool with the source's UE and the two name each other; no UE or a target already changes nothing, and an exhausted allocator ends in a nil pointer |
| `NgapContext.AMFContext.CompleteHandover` | Free5gc_Source_code/amf/internal/ngap/handler.go:1180-1216 | the source lets go of its UE, whose place the target takes |
| `NgapContext.AMFContext.AttachRanUeReleasingOld` | Free5gc_Source_code/amf/internal/gmm/common/user_profile.go:57-70 | the older connection loses its UE and the slot goes to the new one |
| `NgapContext.AMFContext.AcknowledgeTarget` | Free5gc_Source_code/amf/internal/ngap/handler.go:1376-1379 | the target's RAN ID is set and it enters the RAN's list |
| `NgapContext.AMFContext.InitialUe` | Free5gc_Source_code/amf/internal/ngap/handler.go:420-438 | the registry becomes the one that `NgapRegistry.InitialIsExact` describes: the stale holder of the RAN ID is gone before the new connection is made; an exhausted allocator ends in a nil pointer after that |
| `NgapContext.AMFContext.FindByAmfUeNgapId` | Free5gc_Source_code/amf/internal/context/amf_ran.go:100-111 | finds a listed connection with the AMF ID, and none only when there is none |
| `NgapContext.AMFContext.ResetPart` | Free5gc_Source_code/amf/internal/ngap/handler.go:147-170 | the connections the items name, those of `NgapReset.NamedByAre`, are removed with the places they claim, an item without IDs removing once more what was found before |
| `NgapContext.AMFContext.RemoveRanUeByInvalidUE` | Free5gc_Source_code/amf/internal/ngap/handler.go:2143-2154 | the two local releases in place give the registry value's |
| `NgapContext.AMFContext.RanUeFind` | Free5gc_Source_code/amf/internal/ngap/handler.go:2161-2241 | the checks in their order give the registry value's answer, cause and effect, which `NgapLookup.RanUeFindIsSound` describes |
| `NgapContext.AMFContext.RemoveConnections` | Free5gc_Source_code/amf/internal/context/amf_ue.go:314-318 | ranging over the UE's connections while they are deleted removes exactly those it holds |
| `GmmTable.RegisteredIsEarned` | Free5gc_Source_code/amf/internal/gmm/init.go:35-53 | in a legal history each arrival in Registered completes a vouched-for Authentication Success, a SecurityMode Success owed to a message that passed its check or to a context transfer, and ContextSetup Success, with no other change of that access between |
| `Gmm.CascadeDescends` | Free5gc_Source_code/amf/internal/gmm/sm.go:133-279 | what entering a state sends ranks strictly below the event that led there, so every cascade ends |
| `GmmRuns.SecurityModeIsGood` | Free5gc_Source_code/amf/internal/gmm/sm.go:242-279 | entering SecurityMode never misses the EAP arguments: they are read only with an invalid security context, and are there then |
| `GmmRuns.SynchFailureIsGood` | Free5gc_Source_code/amf/internal/gmm/handler.go:2129-2172 | a second synch failure in a row sends Authentication Fail (section 5.4.1.3.7 of TS 24.501), and no other path leaves two counted |
| `GmmRuns.CrossedIsSound` | Free5gc_Source_code/amf/internal/gmm/sm.go:228-234 | leaving Authentication drops its data, so there is an authentication context only while an access is in that state, and each change carries the evidence its event claims |
| `GmmRuns.SendIsFine` | Free5gc_Source_code/amf/internal/gmm/sm.go:145-161 | every nested event is handled to the end without a missing argument |
| `GmmRuns.ReceiveIsSound` | Free5gc_Source_code/amf/internal/nas/dispatch.go:15-34 | one message, with any answers of other functions, fails if and only if it meets one of three nil pointers, and otherwise leaves the UE sound with at most one synch failure counted |
| `GmmRuns.RunIsSound` | Free5gc_Source_code/amf/internal/gmm/handler.go:2083-2189 | after every message of every run: a context only while some access is in Authentication, at most one synch failure, a legal history, and the integrity flag up exactly if the message failed its check and no context transfer followed |
| `GmmRuns.RegisteredInRun` | Free5gc_Source_code/amf/internal/gmm/init.go:35-53 | whoever is Registered after any run got there by the three successes in order, with nothing between; the SecurityMode Success was made while handling a message that passed its integrity check, or a registration request for which the old AMF handed over the context |
| `GmmRuns.ChangeIsOwed` | Free5gc_Source_code/amf/internal/nas/handler.go:41-56 | every change in a run's history was made while handling one of its messages and bears the verdict on that message |
| `GmmOutcomes.ResponseIsExact` | Free5gc_Source_code/amf/internal/gmm/handler.go:1942-2072 | a response to a sound UE adds an Authentication Success if and only if it can be used, RES* matches in 5G-AKA, and the AUSF confirms it; it adds an Authentication Fail, ending in Deregistered, if and only if it can be used, RES* does not match or the AUSF denies, and the UE is not one with a GUTI that has not been asked for its identity; that one is asked, and otherwise nothing changes |
| `GmmOutcomes.ResponseSucceeds` | Free5gc_Source_code/amf/internal/gmm/handler.go:2000-2012 | the success is followed by SecurityMode Success and the set-up with a valid security context, by SecurityMode Fail without a common algorithm, and else by a command; all fields of the UE are given |
| `GmmOutcomes.ResponseFails` | Free5gc_Source_code/amf/internal/gmm/handler.go:1971-2024 | the rejection is one change to Deregistered, and all fields of the UE are given |
| `GmmOutcomes.ResponseAsks` | Free5gc_Source_code/amf/internal/gmm/handler.go:1971-2024 | the UE is asked once: a single identity request is counted and nothing else changes |
| `GmmOutcomes.ResponseIsIgnored` | Free5gc_Source_code/amf/internal/gmm/handler.go:1942-2072 | any other response changes nothing but the integrity verdict |
| `GmmOutcomes.FailureRejects` | Free5gc_Source_code/amf/internal/gmm/handler.go:2083-2172 | in 5G-AKA a MAC failure, "non-5G authentication unacceptable" and a second synch failure end in Deregistered by an Authentication Fail |
| `GmmOutcomes.FailureIsNoted` | Free5gc_Source_code/amf/internal/gmm/handler.go:2083-2189 | every other failure changes no state: a first synch failure is counted and takes the AUSF's new challenge, and a key set in use moves on to the next of seven |
| `GmmOutcomes.IdentityEnds` | Free5gc_Source_code/amf/internal/gmm/sm.go:169-188 | in Authentication an identity that can be read, and that is no temporary one in a message that failed its check, starts the procedure over with what is known then: ask, pass, challenge or error; all fields of the UE are given |
| `GmmOutcomes.CompleteSucceeds` | Free5gc_Source_code/amf/internal/gmm/handler.go:2243-2303 | Security Mode Complete that passed its check leads to ContextSetup with the request stored or contained, and fails to Deregistered when the set-up does |
| `GmmOutcomes.SecurityModeFails` | Free5gc_Source_code/amf/internal/gmm/handler.go:2280-2317 | Security Mode Reject, and a Complete with a service request in it, end in Deregistered by a SecurityMode Fail |
| `GmmOutcomes.CompleteIsIgnored` | Free5gc_Source_code/amf/internal/gmm/handler.go:2243-2303 | one that failed its check, whose IMEISV cannot be read, or that contains anything else changes nothing |
| `GmmOutcomes.IdentitySetsUp` | Free5gc_Source_code/amf/internal/gmm/sm.go:372-402 | in ContextSetup an identity that can be read sets the context up again, by the registration type |
| `GmmOutcomes.RegistrationCompletes` | Free5gc_Source_code/amf/internal/gmm/handler.go:2191-2241 | Registration Complete leads to Registered by a ContextSetup Success, and what belonged to the registration is forgotten |
| `GmmRequests.RequestEnds` | Free5gc_Source_code/amf/internal/gmm/handler.go:375-610 | a registration request that is read to its end in Deregistered or Registered starts authentication, which asks, passes, challenges or fails by the identity and the security context after it was read: dropped for an initial registration and an undecipherable container, replaced by what the old AMF hands over |
| `GmmRequests.RequestIsDropped` | Free5gc_Source_code/amf/internal/gmm/handler.go:375-572 | one that is not read to its end changes no state and no authentication data |
| `GmmRequests.ServiceIsNoted` | Free5gc_Source_code/amf/internal/gmm/handler.go:1707-1790 | a service request that a valid security context cannot decipher drops that context; nothing else changes |
| `GmmRequests.OthersAreIgnored` | Free5gc_Source_code/amf/internal/gmm/sm.go:18-471 | a message that the state does not act on changes nothing but the integrity verdict |
| `GmmRequests.DeregistrationEnds` | Free5gc_Source_code/amf/internal/gmm/handler.go:2319-2409 | a deregistration request in Registered deregisters its access if and only if its target includes that, and the other access if its target includes it and it has been waiting; it adds no change but the two events of leaving |
| `GmmRequests.AuthenticatesExactly` | Free5gc_Source_code/amf/internal/gmm/handler.go:1631-2072 | of all messages to a sound UE exactly these add an Authentication Success: a usable, matching response that the AUSF confirms, and, for a UE known by then with a valid security context, an Identity Response and a registration request that is read to its end |
| `GmmRequests.SuccessIsOwed` | Free5gc_Source_code/amf/internal/gmm/handler.go:1631-2072 | every Authentication Success in any run is owed to one of those messages, as the UE was when it came |
| `GmmRequests.RegisteredIsAuthenticated` | Free5gc_Source_code/amf/internal/gmm/init.go:35-53 | so whoever is Registered after any run was authenticated on that access by one of those messages |
| `GmmUnchecked.UncheckedReachesContextSetup` | Free5gc_Source_code/amf/internal/gmm/handler.go:608-610 | a new UE's registration request that failed its check reaches ContextSetup when a context with a key set is handed over, with SecurityMode Success in the history |
| `GmmUnchecked.UncheckedIsSecured` | Free5gc_Source_code/amf/internal/gmm/handler.go:375-610 | for any UE, access, answers and registration request that failed its check, SecurityMode Success follows if and only if the access is Deregistered or Registered, the request is read to its end, another AMF is asked and hands over a usable key set, and the identity is known; then the three changes lead to ContextSetup unless the set-up fails |
| `GmmUnchecked.UncheckedMessages` | Free5gc_Source_code/amf/internal/nas/handler.go:41-56 | for a sound UE, no other message that failed its check is followed by SecurityMode Success |
| `GmmRuns.RequestKeeps` | Free5gc_Source_code/amf/internal/gmm/handler.go:375-572 | whatever becomes of a registration request, states, authentication data, counts and history stay, a stored request stays stored, and the integrity flag only follows a context transfer |
| `GmmRuns.AuthenticationIsGood` | Free5gc_Source_code/amf/internal/gmm/handler.go:1631-1704 | the authentication procedure leaves the UE sound and sends Authentication Success only with a valid security context |
| `GmmRuns.DeregistrationOutcome` | Free5gc_Source_code/amf/internal/gmm/handler.go:2366-2407 | a deregistration request ends in Deregistered if and only if its target includes the access it came over |
| `GmmRuns.DeregistrationIgnores` | Free5gc_Source_code/amf/internal/gmm/init.go:35-53 | in DeregistrationInitiated a message over that access changes nothing but the integrity flag |
| `GmmObject.GmmUe.SendEvent` | Free5gc_Source_code/amf/internal/gmm/sm.go:18-471 | callbacks that update the UE and send events from within end in the same UE, history or panic as the event-by-event description; a sound UE and a ready event end without a panic in a sound UE |
| `GmmObject.GmmUe.StartAuthentication` | Free5gc_Source_code/amf/internal/gmm/sm.go:135-161 | error, pass and wait send Authentication Error, Authentication Success and nothing; a sound UE in the state stays sound with all that follows |
| `GmmObject.GmmUe.StartSecurityMode` | Free5gc_Source_code/amf/internal/gmm/sm.go:242-279 | skips the procedure with a valid context, fails without common algorithms, otherwise marks the context available as the command is sent; a UE that arrived with the EAP arguments or a valid context stays sound |
| `GmmObject.GmmUe.StartContextSetup` | Free5gc_Source_code/amf/internal/gmm/sm.go:324-365 | stores the request given and sets up by registration type, failure sending ContextSetup Fail; a UE that arrived with its request stays sound |
| `GmmObject.GmmUe.StartDeregistration` | Free5gc_Source_code/amf/internal/gmm/handler.go:2366-2409 | Deregistration Accept goes to the target accesses in order; a UE that arrived with the request stays sound |
| `GmmObject.GmmUe.CheckResponse` | Free5gc_Source_code/amf/internal/gmm/handler.go:1942-2072 | by authentication type and the AUSF's verdict: success with EAP arguments, one identity request, rejection, or nothing; `GmmOutcomes.ResponseIsExact` says which |
| `GmmObject.GmmUe.TakeFailure` | Free5gc_Source_code/amf/internal/gmm/handler.go:2083-2189 | by cause: rejection, a new key set identifier with the count reset, or a synch failure counted |
| `GmmObject.GmmUe.CompleteSecurityMode` | Free5gc_Source_code/amf/internal/gmm/handler.go:2243-2303 | success only for a message that passed its integrity check, with the contained or the stored request; a contained service request fails |
| `GmmObject.GmmUe.InContextSetup` | Free5gc_Source_code/amf/internal/gmm/sm.go:366-414 | Identity Response sets up again, Registration Complete sends ContextSetup Success |
| `GmmObject.GmmUe.Receive` | Free5gc_Source_code/amf/internal/nas/handler.go:41-56 | a sound object with at most one synch failure panics if and only if the message meets one of the three nil pointers, and otherwise is sound with at most one counted; its history only gains changes that bear the verdict on this message |
| `NgapIes.Stage` | Free5gc_Source_code/amf/internal/ngap/ngap_generator.go:302-467 | for any definition and elements the stage passes if and only if none comes twice, every mandatory reject one is there and, for a request, no unknown one is reject; the first value of each is kept and the diagnostics are given in order |
| `NgapIes.Extract` | Free5gc_Source_code/amf/internal/ngap/ngap_generator.go:323-373 | the loop keeps first values, and flags repeats and elements not understood |
| `NgapIes.ReportMissing` | Free5gc_Source_code/amf/internal/ngap/ngap_generator.go:375-389 | one report for each missing element, in definition order, aborting if there is any |
| `NgapIes.CheckThere` | Free5gc_Source_code/amf/internal/ngap/ngap_generator.go:449-467 | the final nil checks return early if and only if a mandatory reject element is missing |
| `NgapIes.ReportsAreExact` | Free5gc_Source_code/amf/internal/ngap/ngap_generator.go:350-372 | reports and elements to be reported correspond one to one, in message order (section 10.3 of TS 38.413) |
| `NgapIes.MissingReportsAreExact` | Free5gc_Source_code/amf/internal/ngap/ngap_generator.go:375-389 | reports and missing elements correspond one to one, in definition order |
| `Decimal.ParseOfFormat` | Free5gc_Source_code/chf/pkg/abmf/abmf.go:141-142 | a formatted integer parses back if and only if it fits an int64 |
| `Abmf.GrantIsMinimum` | Free5gc_Source_code/chf/pkg/abmf/abmf.go:159-178 | the grant is the smaller of request and balance if and only if the balance is not negative and the request below 2^63; it is final just when the request exceeds the balance |
| `Abmf.RequestsAreExact` | Free5gc_Source_code/chf/pkg/abmf/abmf.go:148-211 | for every kind of request in amounts that fit an int64, the new balance, the grant and whether there is a report: initial requests and updates take the grant off the balance, terminations what was used, refunds add, nothing else changes it, and only debits are reported on |
| `Abmf.OverdrawnIsForgiven` | Free5gc_Source_code/chf/pkg/abmf/abmf.go:162-178 | a request on a negative balance is granted 2^64 less the debt and brings the balance to zero |
| `Abmf.ReportBrackets` | Free5gc_Source_code/chf/pkg/abmf/abmf.go:185-208 | V and E with V below ten and V * 10^E <= balance < (V + 1) * 10^E, V positive for a positive balance |
| `Abmf.NegativeReportsZero` | Free5gc_Source_code/chf/pkg/abmf/abmf.go:185-194 | a negative balance is reported with digits zero, because the sign counts towards the exponent |
| `Abmf.ReportIsExact` | Free5gc_Source_code/chf/pkg/abmf/abmf.go:185-208 | so the report brackets the balance if and only if it is not negative |
| `Abmf.RunConserves` | Free5gc_Source_code/chf/pkg/abmf/abmf.go:148-182 | over any run without overflow the balance is the initial one plus refunds less grants and use, plus 2^64 for each grant to an overdrawn account |
| `Abmf.BooksBalance` | Free5gc_Source_code/chf/pkg/abmf/abmf.go:148-182 | so the books balance if and only if no grant went to an overdrawn account |
| `Abmf.Ledger.HandleCcr` | Free5gc_Source_code/chf/pkg/abmf/abmf.go:131-236 | the stored quota of the account is updated as computed, without overflow by what is refunded, used and granted, and reads back; other accounts keep theirs, and an unknown or unreadable one gives no answer |
| `Abmf.Update` | Free5gc_Source_code/chf/pkg/abmf/abmf.go:148-211 | without overflow the balance changes by exactly what is refunded, used and granted; a grant from a balance that is not negative is the smaller of request and balance; a balance that is not negative is bracketed by the report |
| `Guti.TmsiAsOctets` | Free5gc_Source_code/amf/internal/context/context.go:224 | the zero-padded hexadecimal of a 32-bit TMSI is the hexadecimal of its four octets |
| `Guti.GutiText` | Free5gc_Source_code/amf/internal/context/context.go:219-226 | TMSI 0x1a2b in PLMN 20893 under the AMF ID cafe00 gives 20893cafe0000001a2b |
| `Guti.KeyIsGuti` | Free5gc_Source_code/amf/internal/ngap/handler.go:458-469 | the key rebuilt from a UE's own 5G-S-TMSI is its GUTI if and only if the AMF ID is in lower case (sections 2.10 and 2.11 of TS 23.003) |
| `Guti.KeyMatches` | Free5gc_Source_code/amf/internal/ngap/handler.go:458-469 | the key rebuilt from any 5G-S-TMSI is the GUTI of a TMSI if and only if it names this AMF and that TMSI and the AMF ID is in lower case |
| `Guti.FindByGuti` | Free5gc_Source_code/amf/internal/context/context.go:452-464 | ranging over the pool in any order finds a UE with the GUTI, and none only when there is none |
| `Guti.FindByFiveGSTmsi` | Free5gc_Source_code/amf/internal/ngap/handler.go:556-580 | a UE is found if and only if the AMF ID is in lower case and the 5G-S-TMSI names this AMF and the TMSI of a UE of the pool, and it is that UE; UEs whose TMSI allocation failed may be in the pool and are never found |
| `Guti.AllocatedIsInjective` | Free5gc_Source_code/amf/internal/context/context.go:219-226 | different TMSIs give different GUTIs |
| `Guti.FailedAllocationIsLost` | Free5gc_Source_code/amf/internal/context/context.go:202-226 | the GUTI made of the allocator's failure value matches no key |

## Left out

- BerExact.RoundTripsExactly: assumes that the tag of a tagged CHOICE takes as many octets as its alternative's, and that a tagged list that is not empty holds no CHOICE; otherwise, as `BerLimits` shows, a value may fail to come back or come back by accident. For strings in a tagged CHOICE `BerChoice.StringChoiceExactly` has no such limit. The limit of 2^24 octets is that of `BerHeader.HeaderRoundTrip`, which is exact.
- BerOctets.PrimitiveOctets: what is printed is described for elements below 2^24 octets and tags below 2^63, those whose headers can be read back, like `BerOctets.StructOctets`, `BerOctets.ListOctets` and `BerOctets.TaggedChoiceOctets`; for all others `BerHeader.AppendTagAndLen` fixes the header.
- BerHeader.ParseTagAndLength: slices are bounded by the length of the octets at hand; Go bounds them by the capacity, so that length octets cut short at the end of a nested element are taken from what follows it, and nearly always reported as out of range by the next check instead of a panic.
- BerFraming.SetOrderIsIrrelevant: orders are compared up to which error is reported; after an error the source leaves a partly filled target, and the model no value.
- CdrFileObject.CDRFile.Decoding: slices are bounded by the file's length; Go bounds them by the capacity of the buffer read, which may be larger.
- Abmf.NegativeReportsZero: balances of 19 digits and a sign are not included, because the conversion of 10^19 to int64 depends on the platform.
- NgapContext.AMFContext.NewRanUe: the ID allocator is not part of this model; it is assumed to answer with an ID not in use, or with none.
- NgapContext.AMFContext.ResetPart: the acknowledgement and the log lines are not modelled.
- GmmRuns.ReceiveIsSound: nil pointers inside handlers that are not part of the model are not covered.
- GmmRuns.RunIsSound: states set directly, by timers, releases of an older connection and erroneous IDs, are not events and not part of the runs.
- GmmRuns.RequestKeeps: location, timers and GUTI reallocation are not modelled; the outcome of decoding and of the context transfer are inputs.
- OBJECT IDENTIFIER, which the parser rejects; struct-tag parsing; integers narrower than 64 bits, to which Go's SetInt truncates.
- The registry assumes that a RAN's access type does not change while it has connections; NG Setup sets it.
- NgapRuns.RunKeeps: Path Switch Request and the clearing of a holding UE's connection are not among the operations of a run; `NgapMoves.PathSwitchKeeps` and `NgapMoves.ClearHoldingKeeps` say when they keep the invariant. Release-complete after a handover and `AMFContext.Reset` are not modelled.
- Memory shared between goroutines: every operation runs alone, as one credit request does in the ledger.
- The FSM library, `ngapConvert` and the decoders are not part of this model; `Gmm.Send` states the assumed order of callbacks, and 8, 10 and 6 bits make the AMF ID.
- Credit requests without the units their type needs, on which the source would dereference nil.
- HTTP, Diameter, MongoDB, SCTP, file access, logging, key derivation and NAS ciphering.
