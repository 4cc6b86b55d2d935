# A verified model of the certificate parser and the script server

This project models three parts of the repository and proves what they do.

1. **The X.509 parser** (`src/x509.c`). `Der`, `Time`, `Name`, `Extensions`, `Usage` and `Certificate`
   define, for each piece of a certificate, an abstract syntax, its DER encoder, and a function of
   the buffer that says what the parser accepts, with its error code. Lemmas show that the accepted
   buffers are exactly the encodings of well-formed certificates, and that the slices recorded
   select the components (`CertificateTheorems`); `Example` writes one certificate out in octets.
   `Calendar` is a concrete Gregorian model of the C library's `timegm`. The parser itself is
   imperative: class `Der.Cursor` is the shared index `*idx`, class `Fields.X509Fields` the struct that is filled in, and each method
   (`Der`, `Time`, `Name`, `ExtensionParser`, `CertificateParser`) is proved to compute the
   function that specifies it. Lengths and positions are 64-bit words, so the methods also show
   that no addition wraps around, for every buffer shorter than 2^63 bytes.
2. **The acceptance policy** (`src/crypto.c`). `Policy` says which certificates are trusted for which
   key, and proves that parsing followed by extraction implements it; `KeyExtraction` holds the
   functions that do it. Loading a key and checking a signature are two unknown functions.
3. **The server** (`src/main.c`). `KeyScan` is the scan of the trusted keys, `Server` the event loop
   as a state machine, `ServerInvariant` what every step keeps, `ServerRuns` and `ServerOutcomes`
   what holds of whole runs and what each event does in all cases, and `ServerLoop` a class with the
   arrays the source has, updated in place, whose methods refine the steps.

Function names ending in `At` take a buffer, a start and the end of the enclosing element. Lemmas
named `...Sound` say that what is accepted is an encoding, `...Complete` that encodings are accepted.

## The code and its documentation

The model follows the code where the two differ; each difference is a theorem.

- `parse_time` does not take 1900 off a GeneralizedTime year, so such a time is placed 1900 years
  late: `Time.TimestampIsMeantIffUtc`, `Time.GeneralizedTimeIsLate`, `Time.GeneralizedTimeAcceptance`,
  `Time.LeapDaysMistaken`, `Time.WindowAsNamed`, `Time.WindowIsLate`.
  So a UTCTime and a GeneralizedTime can compare the wrong way round: `Time.MixedFormsOutOfOrder`,
  `Time.TimestampsOrderedAsNamed`.
- UTCTimes from 1950 to 1969 are refused, because negative timestamps are: `Time.UtcTimeExact`,
  `Time.UtcTimeBeforeEpochRefused`.
- `parse_key_usage` shifts the second octet by one, while `src/x509.h` has decipherOnly at bit 15:
  `Usage.KeyUsageFlagsExact`, `Usage.UnnamedBitPassesForSignature`.
- The key loop takes its bound before the first turn and shrinks the list inside, so it can drop
  unexpired keys or close the server although one is left: `KeyScan.ScanExact`,
  `KeyScan.KeepsUnexpiredIff`, `KeyScan.OneExpiredKeyTakesAnother`, `KeyScan.ClosesIff`,
  `KeyScan.OneExpiredKeyCloses`. `KeyScan.Intended` is the loop with the bound re-read;
  `KeyScan.IntendedFilters` shows that it does what the comments say.
- An RSA modulus must be written with 385 or 513 octets, but these are not looked at, so it need
  not have 3072 or 4096 bits: `Policy.RsaModulusSize`, `Policy.ZeroModulusTrusted`.
- The indices of an empty serial number are not the sentinel that `src/x509.h` promises:
  `CertificateTheorems.SerialNeverMarkedMissing`, `CertificateTheorems.EmptySerialAccepted`.
- Empty Extensions and empty ExtKeyUsage sequences, path lengths with superfluous leading zeros,
  absent RSA parameters, and octets behind the RSA key inside its BIT STRING are accepted, and are
  part of the modelled grammar: `Certificate.EmptyExtensionsAccepted`, `Extensions.EmptyPurposesAccepted`,
  `Extensions.PaddedPathLengthAccepted`, `Policy.AnyModulusTrusted`.
- An accept on a full table reuses the evicted connection's slot at once; an event of the same batch
  that still names it is taken for one of the new connection: `ServerRuns.EvictionReusesSlot`,
  `ServerRuns.StaleEventEndsNewcomer`.

## Model

| member | source | states |
|---|---|---|
| Der.HeaderSound | src/x509.c:24-84 | every accepted header is the minimal encoding of the content it frames |
| Der.HeaderComplete | src/x509.c:24-84 | the minimal encoding of any content that fits is accepted and its content found |
| Der.HeaderReadsBelow | src/x509.c:24-84 | the outcome does not depend on bytes at or behind the enclosing element's end |
| Der.TruncationPersists | src/x509.c:121-138 | an element that is cut off reads as absent when optional and fails whatever is required next |
| Der.OptionalAbsent | src/x509.c:121-138 | an element with another tag reads as an absent optional element |
| Der.OptionalPresent | src/x509.c:121-138 | an optional element that is there is found, with its content |
| Der.DefaultBoolSound | src/x509.c:145-165 | an accepted BOOLEAN DEFAULT FALSE is absent or TRUE in its only encoding |
| Der.BitStringSound | src/x509.c:175-191 | an accepted BIT STRING is the encoding, without unused bits, of the octets found |
| Der.BitStringComplete | src/x509.c:175-191 | every BIT STRING without unused bits that fits is accepted |
| Der.Cursor.ReadLength | src/x509.c:62-65 | the shifts compute the big-endian number, within 64 bits |
| Der.Cursor.ParseAny | src/x509.c:24-84 | moves the index over a header, or reports the specified error; no addition wraps |
| Der.Cursor.ParseDataElement | src/x509.c:86-97 | the same for an element with an expected tag |
| Der.Cursor.ParseNull | src/x509.c:99-111 | succeeds exactly on 05 00; otherwise leaves the index alone and says what is wrong |
| Der.Cursor.ParseOptionalData | src/x509.c:121-138 | consumes a whole header, or leaves index and end as they were |
| Der.Cursor.ParseDefaultBool | src/x509.c:145-165 | value and position as specified |
| Der.Cursor.ParseBitstringNoUnused | src/x509.c:175-191 | the octets after the zero count, as specified |
| Calendar.UnchangedIffReal | src/x509.c:537-544 | timegm leaves a date unchanged and non-negative exactly if it exists and is not before 1970 |
| Calendar.SecondsAreCounted | src/x509.c:538 | the closed form equals counting days year by year and month by month |
| Calendar.MonthLengths | src/x509.c:537-544 | the Gregorian calendar, written out |
| Calendar.OrderIsCalendarOrder | src/crypto.c:273-278 | timestamps of real dates are ordered as the dates, and injective |
| Time.TimeSound | src/x509.c:471-549 | an accepted time is the encoding of a date that exists |
| Time.TimeComplete | src/x509.c:471-549 | every such encoding is accepted |
| Time.TimeOctets | src/x509.c:499-525 | a UTCTime is read iff it stands there as 17 0d, a GeneralizedTime as 18 0f, with the digits of a date that is accepted, and Z |
| Time.BodyWrittenOut | src/x509.c:503-533 | the fields stand in the order year, month, day, hour, minute, second |
| Time.DigitsWrittenOut | src/x509.c:480-494 | the digits are ASCII, the most significant first |
| Time.UtcTimeExact | src/x509.c:503-509 | a UTCTime is accepted iff its date, in the 1950-2049 window, exists and is not before 1970; its timestamp counts the seconds |
| Time.UtcTimeBeforeEpochRefused | src/x509.c:537-541 | 1969-12-31 as a UTCTime is refused |
| Time.TimestampIsMeantIffUtc | src/x509.c:510-524 | an accepted time has the timestamp of the date it names iff it is a UTCTime; else a later one |
| Time.GeneralizedTimeIsLate | src/x509.c:510-524 | 2050-01-01 is read as 3950-01-01 |
| Time.GeneralizedTimeAcceptance | src/x509.c:510-544 | exactly when acceptance of a GeneralizedTime agrees with existence of its date |
| Time.LeapDaysMistaken | src/x509.c:510-544 | 2100-02-29 is accepted and 2400-02-29 refused |
| Time.TimestampsOrdered | src/x509.c:508-547 | accepted timestamps are ordered and equal as the dates in the source's reading of the year are |
| Time.TimestampsOrderedAsNamed | src/crypto.c:273-278 | exactly when the order of two timestamps is that of the dates named: always within one form, and between the forms unless the GeneralizedTime's date is in the 1900 years before the other |
| Time.TimestampsOrderedFrom2050 | src/crypto.c:273-278 | it is if GeneralizedTimes are used from 2050 on only, as RFC 5280 wants |
| Time.WindowAsNamed | src/crypto.c:273-278 | exactly when being between the timestamps of a validity is being between the dates it names |
| Time.WindowIsLate | src/crypto.c:273-278 | a validity from 2050 to 2060 does not hold in 2055, but in 3955 |
| Time.MixedFormsOutOfOrder | src/x509.c:510-524 | the UTCTime 2049-01-01 gets a smaller timestamp than the GeneralizedTime 1970-01-01 |
| Time.TimestampFits | src/x509.c:475-477 | an accepted timestamp is non-negative and fits in 64 bits |
| Time.ConvertNum | src/x509.c:480-489 | adds one scaled decimal digit, or reports an invalid time |
| Time.Convert2Digit | src/x509.c:490-494 | reads a two-digit number |
| Time.ConvertYear | src/x509.c:520-523 | reads a four-digit number |
| Time.CheckDate | src/x509.c:537-547 | normalising and comparing accepts exactly the dates that exist and are not before 1970, and gives their seconds counted one by one |
| Time.ParseAfterYear | src/x509.c:525-548 | the fields after the year, and the check of the date |
| Time.ParseTime | src/x509.c:471-549 | timestamp and position as specified |
| Name.NameSound | src/x509.c:586-646 | an accepted name is the encoding of non-empty sets of pairs, and fills its element |
| Name.NameComplete | src/x509.c:586-646 | every such encoding is accepted |
| Name.ParseAttribute | src/x509.c:604-637 | one attribute, ending where its SEQUENCE ends |
| Name.ParseSet | src/x509.c:607-641 | the inner loop ends with the index at the end of the set |
| Name.ParseName | src/x509.c:586-646 | the outer loop ends with the index at the end of the name |
| Extensions.BasicConstraintSound | src/x509.c:197-242 | an accepted basicConstraints value is the encoding of a well-formed one |
| Extensions.BasicConstraintComplete | src/x509.c:197-242 | every such encoding is accepted |
| Extensions.PaddedPathLengthAccepted | src/x509.c:216-231 | a path length with superfluous zeros is accepted |
| Extensions.AkidSound | src/x509.c:248-304 | an accepted authority key identifier is the encoding of its optional parts, with nothing cut off |
| Extensions.AkidComplete | src/x509.c:248-304 | every such encoding is accepted |
| Extensions.SkidSound | src/x509.c:307-319 | an accepted subject key identifier is the encoding of its octets |
| Extensions.KeyUsageSound | src/x509.c:334-369 | an accepted KeyUsage is a canonical bit string |
| Extensions.KeyUsageComplete | src/x509.c:334-369 | every canonical bit string is accepted |
| Extensions.ExtKeyUsageSound | src/x509.c:374-432 | an accepted ExtKeyUsage is the encoding of its purposes |
| Extensions.ExtKeyUsageComplete | src/x509.c:374-432 | every such encoding is accepted |
| Extensions.EmptyPurposesAccepted | src/x509.c:388-428 | an empty list of purposes is accepted |
| Extensions.TableOrder | src/x509.c:441-450 | the table finds each supported extension by its OID and nothing else |
| Extensions.ExtensionSound | src/x509.c:858-927 | an accepted extension is the encoding, with the right criticality, of a well-formed one |
| Extensions.ExtensionComplete | src/x509.c:858-927 | every such encoding is accepted |
| Extensions.ListSound | src/x509.c:846-929 | an accepted list is the encoding of at most 64 well-formed extensions with distinct OIDs |
| Extensions.ListComplete | src/x509.c:846-929 | every such encoding is accepted |
| Usage.PathLengthIsValue | src/x509.c:227-231 | the shifts compute the number the INTEGER denotes |
| Usage.PathLengthRange | src/x509.c:223-231 | the path lengths are the numbers of up to 31 bits |
| Usage.KeyUsageEncodingUnique | src/x509.c:348-360 | two accepted KeyUsage contents with the same bits are the same octets |
| Usage.KeyUsageEncodingExists | src/x509.c:348-360 | each non-empty set of the nine named bits has an accepted encoding that denotes it |
| Usage.KeyUsageFlagsExact | src/x509.c:363-367 | the flags are as the header declares iff decipherOnly is not set and no unnamed bit adds a named one; they stay below 512 |
| Usage.FlagOfNamedBit | src/x509.c:363-367 | each of the low eight flags is its named bit or the unnamed bit nine places on |
| Usage.OneOctetFlags | src/x509.c:364 | with one octet the flags are the octet |
| Usage.UnnamedBitPassesForSignature | src/x509.c:365-367 | a KeyUsage of only unnamed bit 9 sets the digitalSignature flag |
| Usage.BitOfPurposesFlags | src/x509.c:388-427 | a flag is set iff a listed purpose stands for it; only bits 16 to 22 are |
| Usage.PurposeMeaning | src/x509.h:125-151 | each purpose has the flag the header gives it |
| Usage.SummaryAsDocumented | src/x509.h:223-241 | CA flag, path length and presence of the usages are as documented |
| Usage.MissingUsageHasNoFlags | src/x509.h:235-241 | the flags of a usage extension that is missing are zero |
| Usage.NoteAllIsSummary | src/x509.c:846-928 | handling the extensions one by one gives what the three relevant ones say |
| Usage.OrderIrrelevant | src/x509.c:846-928 | a permuted list has the same summary and identifiers |
| Fields.X509Fields.AssignDefaultExtensions | src/x509.c:455-465 | nothing is found to begin with |
| Fields.RecordedUsage | src/x509.c:197-432 | the summary recorded is that of the extensions read |
| Fields.IdentifiersFound | src/x509.h:207-213 | a key identifier that an extension carries is recorded with its indices in the signed part; otherwise both indices are the sentinel |
| ExtensionParser.ParseBasicConstraint | src/x509.c:197-242 | records CA flag and path length as specified |
| ExtensionParser.ReadPathLength | src/x509.c:227-231 | folds the octets onto the current path length |
| ExtensionParser.ParseAkid | src/x509.c:248-304 | records the key identifier as specified |
| ExtensionParser.ParseSkid | src/x509.c:307-319 | records the key identifier as specified |
| ExtensionParser.EndsWithLastSetBit | src/x509.c:353-360 | the two masks test that the last octet ends, before its unused bits, with a bit that is set |
| ExtensionParser.ParseKeyUsage | src/x509.c:334-369 | adds the flags of both octets to the word |
| ExtensionParser.GatherPurposes | src/x509.c:388-428 | the loop adds the flags of all purposes to the word |
| ExtensionParser.ParseExtKeyUsage | src/x509.c:374-432 | records the purposes as specified |
| ExtensionParser.IsDuplicate | src/x509.c:897-901 | finds an OID iff it has been met |
| ExtensionParser.Remember | src/x509.c:902-904 | the arrays then hold the OID as well |
| ExtensionParser.RecogniseExtension | src/x509.c:906-926 | table search, criticality rules and handler as specified |
| ExtensionParser.ParseWrapper | src/x509.c:858-889 | OID, criticality and value as specified |
| ExtensionParser.ParseExtensions | src/x509.c:842-929 | the loop over the list as specified, ending at the end of the list |
| Certificate.AlgIdSound | src/x509.c:555-575 | an accepted algorithm identifier is the encoding of its OID and parameters |
| Certificate.KeyInfoSound | src/x509.c:771-795 | an accepted key is an algorithm identifier and a BIT STRING that fill the element |
| Certificate.ExtensionsSound | src/x509.c:821-840 | the explicit tag wraps exactly one list of extensions |
| Certificate.TailComplete | src/x509.c:797-835 | any combination of the optional elements is accepted |
| Certificate.TruncatedTailRefused | src/x509.c:797-835 | an optional element that is cut off, at the start or behind others, is not taken for an absent one |
| Certificate.EmptyExtensionsAccepted | src/x509.c:832-846 | an empty list of extensions is accepted |
| CertificateTheorems.Placement | src/x509.h:160-168 | the components stand in the signed part in order and in each other, the signature behind it up to the last byte |
| CertificateTheorems.ParseSound | src/x509.c:648-961 | an accepted buffer is the encoding of the certificate its slices select; its parts tile it without gaps |
| CertificateTheorems.ParseComplete | src/x509.c:648-961 | every encoding of a well-formed certificate is accepted and read back |
| CertificateTheorems.AcceptedIffEncoding | src/x509.c:648-961 | parser and encoder undo each other |
| CertificateTheorems.EncodingInjective | src/x509.c:648-961 | a well-formed certificate is determined by its encoding |
| CertificateTheorems.FieldsDescribe | src/x509.h:153-242 | every index pair lies where it should and selects its component; times and summary are those of the certificate |
| CertificateTheorems.SerialNeverMarkedMissing | src/x509.h:203-205 | the indices of the serial number are never the sentinel, which the header promises of an empty one; kept iff it is not empty |
| CertificateTheorems.EmptySerialAccepted | src/x509.c:713-721 | an empty serial number is accepted |
| CertificateTheorems.ListConditions | src/x509.c:846-905 | a list is well-formed iff it has at most 64 extensions, each of them well-formed and no OID twice |
| CertificateTheorems.PermutedExtensions | src/x509.c:846-928 | permuting the extensions keeps acceptance, size, summary and identifiers |
| Example.Encoded | src/x509.c:648-961 | a certificate with every optional part, written out octet by octet |
| Example.Accepted | src/x509.c:648-961 | these octets are accepted and read back, for every key and signature of the right size |
| Example.Trusted | src/crypto.c:271-318 | they are trusted, for this key with index 0 and size 64, just when the timestamps and the library allow |
| CertificateParser.ParseAlgId | src/x509.c:555-575 | positions of identifier and OID as specified |
| CertificateParser.ParseVersion | src/x509.c:691-711 | only version 3 |
| CertificateParser.ParseValidity | src/x509.c:736-759 | both timestamps as specified |
| CertificateParser.ParseKeyInfo | src/x509.c:771-795 | positions of the key as specified |
| CertificateParser.ParseOptionalExtensions | src/x509.c:821-840 | the explicit tag and the list in it, recorded as specified; the defaults without them |
| CertificateParser.ParseTail | src/x509.c:797-935 | the optional elements up to the end of the signed part |
| CertificateParser.ParseTbs | src/x509.c:691-935 | the whole signed part as specified |
| CertificateParser.ParseSignature | src/x509.c:937-958 | an identical algorithm identifier, then the signature up to the last byte |
| CertificateParser.ParseX509 | src/x509.c:648-961 | result, error code and all fields as specified |
| Policy.RsaKeySound | src/crypto.c:98-120 | an accepted RSA key begins with the encoding of its modulus and exponent |
| Policy.RsaKeyComplete | src/crypto.c:98-120 | every key that begins so is accepted |
| Policy.RsaModulusSize | src/crypto.c:122-132 | an accepted modulus has 3072 or 4096 bits, as its number of octets says, iff its first octet is zero and the next at least 128 |
| Policy.AnyModulusTrusted | src/crypto.c:69-132 | whatever the octets of the modulus, the parameters and what stands behind the key: a certificate with them is trusted if the library loads and verifies it |
| Policy.ZeroModulusTrusted | src/crypto.c:122-132 | 385 zero octets, for one |
| Policy.MaskMeansThree | src/crypto.c:298-302 | the mask test asks for digitalSignature, keyCertSign and codeSigning |
| Policy.UsageChecks | src/crypto.c:279-302 | the checks on the recorded fields are the policy on the extensions |
| Policy.ViewInBounds | src/x509.h:167-168 | all that the extraction reads lies in the buffer |
| Policy.EdImplements | src/crypto.c:27-54 | an Edwards key is extracted iff it has no parameters, both algorithm identifiers are equal, and it loads |
| Policy.KeyImplements | src/crypto.c:258-269 | the key extracted is the one the certificate's key and algorithms determine |
| Policy.TrustedIff | src/crypto.c:271-318 | a file is trusted for a key iff it encodes a certificate that the policy trusts for it |
| Policy.AlgorithmRecorded | src/crypto.c:258-269 | a trusted key records the position of the certificate's algorithm in the table and the size of its signatures |
| Policy.KeyWrittenOut | src/crypto.c:27-132 | which key a certificate has, with the identifiers of RFC 8410 and RFC 8017 as octets |
| Policy.OnlyCertificatesTrusted | src/crypto.c:271-318 | nothing but an encoded certificate is trusted |
| Policy.TrustedExtensions | src/crypto.c:279-302 | in a trusted certificate the three extensions occur once each; with named bits only, the usages are the named ones |
| Policy.AllowedExactly | src/crypto.c:279-302 | the extensions pass iff there is a CA, a KeyUsage with the two bits or the unnamed ones taken for them, codeSigning, and identifiers that agree |
| Policy.TrustedFile | src/crypto.c:271-327 | what the bytes of a trusted file must hold: extensions, identifiers, validity, and a signature of the key's fixed size |
| Policy.KeyRefused | src/crypto.c:27-132 | why the certificate's key is refused, if it is |
| Policy.RefusedInOrder | src/crypto.c:271-318 | which error code a certificate gets: the checks are in order |
| Policy.KeysInOrder | src/main.c:199-223 | the keys read are those of all files that are trusted, in the order of the files |
| Policy.TrustedFromFiles | src/main.c:199-223 | a key is among them iff some file is trusted for it |
| KeyExtraction.ExtractRsa | src/crypto.c:69-132 | NULL or no parameters, a known digest, a modulus written with 385 or 513 octets, a key that loads |
| KeyExtraction.ParseRsaKey | src/crypto.c:98-120 | modulus and exponent as specified |
| KeyExtraction.ExtractPubKey | src/crypto.c:258-269 | the algorithm is looked up by OID; its index and signature size are recorded |
| KeyExtraction.ExtractSelfSignForCodeSign | src/crypto.c:271-318 | the checks in order, with their error codes; the expiry is the certificate's |
| KeyExtraction.ReadCert | src/read_cert.c:51-54 | from bytes to trusted key |
| KeyExtraction.ReadAllCerts | src/main.c:199-223 | the loop over the files gathers these keys |
| KeyScan.IntendedFilters | src/main.c:357-386 | with the bound re-read: a match iff an unexpired key authenticates, giving up iff there is none, otherwise just the unexpired keys stay; none of them is ever lost |
| KeyScan.ScanFollowsIntended | src/main.c:357-386 | as written, the loop does the same while inside the list |
| KeyScan.ScanOverrun | src/main.c:359-371 | past the list it takes out one unexpired key for each one removed, down to one |
| KeyScan.ScanExact | src/main.c:357-386 | outcome and remaining list of the loop as written, in all cases |
| KeyScan.KeepsUnexpiredIff | src/main.c:360-366 | the scan loses no unexpired key iff one of them authenticates, or no key has expired, or at most one has not |
| KeyScan.OneExpiredKeyTakesAnother | src/main.c:360-366 | of one expired and two unexpired keys that do not match, one unexpired key is lost |
| KeyScan.NothingRemoved | src/main.c:357-386 | without expired keys the list stays as it is |
| KeyScan.ClosesIff | src/main.c:367-370 | the server closes iff no unexpired key matches and at least as many have expired as have not |
| KeyScan.OneExpiredKeyCloses | src/main.c:357-371 | one expired and one unexpired key that does not match close the server |
| KeyScan.ScanKeys | src/main.c:357-386 | the loop on the array of keys, which terminates although the position can stay |
| KeyScan.FramingRoundTrip | src/main.c:373-378 | data splits into signature and script iff it is signature, newline, script with a signature of the key's size |
| KeyScan.AuthenticatesSigned | src/main.c:373-378 | what a sender puts together is authentic iff the signature is one of the script |
| ServerInvariant.OldestIsOldest | src/main.c:251-259 | the search finds the first of the connections opened earliest |
| ServerInvariant.EvictKeeps | src/main.c:249-262 | a full table makes room by releasing the oldest connection, and then has a free slot |
| ServerInvariant.AcceptKeeps | src/main.c:248-305 | accepting keeps the invariant; it ends the program only when epoll refuses |
| ServerInvariant.Read1Keeps | src/main.c:326-336 | a read keeps the invariant, and releases the connection iff it reaches the limit |
| ServerInvariant.ReceiveKeeps | src/main.c:311-338 | so does the whole receive loop |
| ServerInvariant.TerminateKeeps | src/main.c:340-392 | so does the end of a connection |
| ServerInvariant.ReleaseKeeps | src/main.c:90-98 | releasing a connection in use keeps the invariant |
| ServerInvariant.StepKeeps | src/main.c:246-400 | every step keeps the invariant |
| ServerInvariant.Doubling | src/main.c:333-335 | capacities are doubled kilobytes up to two gigabytes |
| ServerRuns.ReachableStates | src/main.c:238-401 | in every reachable state the counter is right, slots are exclusive, releases are unique, and each buffer holds what its connection sent, with room for more |
| ServerRuns.AcceptNeverStuck | src/main.c:278-305 | a free slot is always found |
| ServerRuns.ExecutionSafety | src/main.c:340-391 | executed scripts are genuine, numbered from 1 in the order their connections ended, one for each |
| ServerRuns.ExecutedWhenEnded | src/main.c:340-391 | each execution is the work of one event of the run: the hang-up that ends its connection, at a time at which its key had not expired |
| ServerRuns.OnlyCertifiedScripts | src/main.c:199-227 | with the keys read from files, each at its time: every executed script was signed under the key of a file that was trusted, and had not expired by the timestamp taken; that is the date the certificate names iff this is a UTCTime |
| ServerRuns.ReceiveAppends | src/main.c:312-337 | however the data are cut into reads, all of it is appended |
| ServerRuns.Delivery | src/main.c:306-338 | over any interleaving of events an open connection's buffer gathers what it sends |
| ServerRuns.EndOfConnection | src/main.c:340-391 | at its end a connection's script is executed iff an unexpired key of the list authenticates it, once, with the next number |
| ServerRuns.ListStays | src/main.c:357-386 | in a run in which no scan meets an expired key the list is always the keys trusted at the start |
| ServerRuns.ListKeepsUnexpired | src/main.c:357-386 | if time does not run backwards and each scan is one that loses none, the list has at no time lost a trusted key that is still unexpired |
| ServerRuns.SignedScriptIsExecuted | src/main.c:238-401 | in a run in which no scan has met an expired key, or none has lost an unexpired one: a connection that sends signature, newline and script in any pieces between any other events, is not evicted and hangs up, has its script executed iff a trusted key unexpired then authenticates it |
| ServerRuns.TrustedFileIsServed | src/main.c:199-391 | with the keys read from files: a script signed under the key of any trusted file that has not expired is executed |
| ServerRuns.EvictionReusesSlot | src/main.c:249-304 | a connection survives an accept iff the table is not full or it is not the oldest; otherwise its slot goes to the newcomer at once, or is empty |
| ServerRuns.StaleEventEndsNewcomer | src/main.c:306-395 | a hang-up or error of the evicted connection, handled next, releases the newcomer |
| ServerOutcomes.ReceiveExact | src/main.c:311-338 | the receive loop in all cases: the connection gathers all it sends, or is released, and nothing else changes |
| ServerOutcomes.TerminateExact | src/main.c:340-392 | the end of a connection in all cases: list, log, release, and whether the server goes on |
| ServerOutcomes.ReadyExact | src/main.c:306-395 | what a connection's event makes of the whole state; the server closes iff the connection is still there, hangs up, no unexpired key authenticates it and at least as many keys have expired as have not |
| ServerOutcomes.EndedMeansReleased | src/main.c:316-395 | a hang-up, an error or a failed read releases the connection and the server goes on, unless it closes for lack of keys |
| ServerOutcomes.IncomingExact | src/main.c:248-305 | what an arrival makes of the whole state |
| ServerOutcomes.WhenServerCloses | src/main.c:238-401 | in a run the server ends only with the last event, and closed iff that event closes it |
| ServerOutcomes.ReachableDates | src/main.c:292-299 | every connection in the table has the descriptor and the clock it arrived with |
| ServerOutcomes.EvictsEarliest | src/main.c:251-262 | the connection evicted is the one that arrived at the earliest clock, in the lowest slot among equals |
| ServerLoop.EventLoop.constructor | src/main.c:407 | starts with an empty table |
| ServerLoop.EventLoop.FreeConn | src/main.c:90-98 | releases a slot in use; the counter does not underflow |
| ServerLoop.EventLoop.FindOldest | src/main.c:251-259 | the loop computes the oldest connection |
| ServerLoop.EventLoop.FindFree | src/main.c:278-304 | the loop computes the first free slot |
| ServerLoop.EventLoop.EvictOldest | src/main.c:249-262 | makes room in a full table |
| ServerLoop.EventLoop.Occupy | src/main.c:292-299 | fills a free slot, using its buffer again |
| ServerLoop.EventLoop.AcceptConnection | src/main.c:248-305 | refines the accept step |
| ServerLoop.EventLoop.Write | src/main.c:314-326 | the bytes are written into the slot's buffer behind those received; no other slot's data change |
| ServerLoop.EventLoop.Enlarge | src/main.c:333-335 | a buffer of twice the size with the same data takes the slot's place |
| ServerLoop.EventLoop.Put | src/main.c:312-336 | one read: bytes stored, oversize released, full buffer doubled |
| ServerLoop.EventLoop.ReceiveAll | src/main.c:311-338 | the receive loop refines its specification |
| ServerLoop.EventLoop.Authenticate | src/main.c:357-386 | the scan of the list for what the buffer holds |
| ServerLoop.EventLoop.Finish | src/main.c:340-392 | refines the end of a connection |
| ServerLoop.EventLoop.HandleEvent | src/main.c:246-400 | refines every step, and keeps the invariant |

## Left out

- OpenSSL: whether key material loads and whether a signature verifies are two unknown functions (type `Crypto`); allocation and freeing of its objects is not modelled.
- System calls: `socket`, `accept`, `recv`, `epoll_wait`, `time` and `clock` appear as outcomes carried by events. `accept` is taken to return a positive descriptor (descriptor 0 is in use), `clock` less than the largest 64-bit number, and `recv` a non-empty part of what waits. `EAGAIN` and `EWOULDBLOCK` are the same number, as on Linux.
- `malloc` and `realloc` always succeed.
- `src/exec.c`: executing a script is an entry in a log.
- `src/read_cert.c` and src/main.c:105-232: opening files, listing a directory and printing errors.
- `src/gen_sig.c`, except that it writes a signature, a newline and the script.
- `free_all` and printed messages.
- Which error code a refused certificate gets from the parser: the methods and the functions that specify them agree on it, and no theorem describes it otherwise. The codes of the extraction are described (`Policy.RefusedInOrder`).
- Batches of events: each event is one step, and a connection's event is for the connection now in the slot, as the source asserts.
- The interpretation of algorithm parameters other than those of the supported algorithms, of serial numbers, unique identifiers, attribute values, general names and unknown extensions; identifiers with a tag number of more than one octet are treated as the source treats them, by their first octet.
- The struct's index pairs are one field each (type `Fields.Range`), written when both indices are known; what a failed parse leaves in the struct is not stated.
