# home-smanager metrics exporter: the ingestion path in Dafny

This project models the data path of the home-smanager metrics exporter. The
exporter subscribes to MQTT messages of the form `deviceID:room:type:energy`.
It splits each payload on `:`, trims and parses the energy field, and folds the
reading into two Prometheus vectors keyed by the labels `device`, `room` and
`type`:

- the counter `energy_total_consumption`, which receives `Add(energy)`;
- the gauge `current_energy_consumption`, which receives `Set(energy)`.

A synthetic publisher (`MockPublish`) produces such payloads. It walks a fixed
table of eight devices and formats each one with `%s:%s:%s:%.2f` and a random
energy in [0, 50). The `ENABLE_MOCK_PUBLISHER` environment variable, read
through `parseBoolOrDefault`, switches the publisher on.

The model has seven modules:

- `Wrappers` holds `Option` and `Result`.
- `Text` covers Go's `strings.Split` with a one-character separator, `strings.Join` and `strings.TrimSpace` with the whitespace set of `unicode.IsSpace`.
- `Decimal` covers the decimal syntax of `strconv.ParseFloat` and the `%.2f` verb.
  - Numbers are exact `real` values.
  - `%.2f` is rounding to hundredths, ties to even, followed by printing integer digits, a point and two fraction digits.
- `Config` covers `strconv.ParseBool`, `parseBoolOrDefault` and the publisher toggle.
- `Metrics` models the two vectors as one map from a label triple to `Series(total, current)`.
  - `Apply` is one `Add` plus one `Set`.
  - `WithLabelValues` creates a missing series at zero.
- `Ingest` covers `msgHandler`: `Decode` turns a payload into a reading, and `Handle` and `HandleAll` update the store.
- `MockPublisher` covers the device table, the payload encoder and one publishing cycle.

Go's map iteration order and the draws of `rand.Float64()` are parameters of
`MockPublish`:

- `order` is any enumeration of the table's keys;
- `values` holds one number in [0, 50) per device.

The MQTT client is replaced by the list of messages the cycle hands to
`Publish`.

Four behaviours of the code are worth stating up front:

- **Numbers that do not parse.** `msgHandler` discards ParseFloat's error (home_smanager.go:77), so a number field that does not parse is applied as 0. `Ingest.Decode` does the same: `Ingest.DecodeBadNumberIsZero` states it for every field ParseFloat rejects, and `Ingest.DecodeParsedNumber` states that every field it accepts is applied as the value it reads.
- **QoS.** `main` subscribes with QoS 1 but calls `MockPublish` with QoS 0. The model passes `qos` through unchanged.
- **The value range.** `rand.Float64() * 50.0` lies in [0, 50), but `%.2f` rounds, so a draw such as 49.999 is printed as `50.00`. The printed (and decoded) energy therefore lies in [0, 50.00]; see `Decimal.RoundCentsReachesFifty`.
- **Short payloads.** Here the model departs from the code. With fewer than three `:`, the code indexes past the end of the split and faults. `Ingest.Decode` returns an error instead, and `Ingest.Handle` leaves the store unchanged. `Ingest.HandleAsWritten` models the code as written, defined only where the index exists; see Findings.

## Model

| member | source | states |
|---|---|---|
| Text.Split | cmd/home-smanager/home_smanager.go:69 | a payload splits into exactly one more segment than it has delimiters |
| Text.SplitSegmentsFree | cmd/home-smanager/home_smanager.go:69 | no segment of the split contains the delimiter |
| Text.JoinSplit | cmd/home-smanager/home_smanager.go:69 | joining the segments with the delimiter reproduces the payload exactly |
| Text.SplitJoin | cmd/home-smanager/home_smanager.go:69 | delimiter-free segments joined and split again come back unchanged |
| Text.SplitNoSeparator | cmd/home-smanager/home_smanager.go:69 | text without a delimiter is a single segment |
| Text.SplitAppend | cmd/home-smanager/home_smanager.go:69 | splitting `a:b` gives the segments of `a` followed by those of `b` |
| Text.TrimSpace | cmd/home-smanager/home_smanager.go:77 | the trimmed field is an infix of the field with only whitespace cut from each side, and neither of its ends is whitespace |
| Text.TrimSpacePadding | cmd/home-smanager/home_smanager.go:77 | whitespace added on either side does not change the trimmed field |
| Text.TrimSpaceOfPadded | cmd/home-smanager/home_smanager.go:77 | a field with no edge whitespace is recovered from any whitespace padding |
| Text.SpaceClasses | cmd/home-smanager/home_smanager.go:77 | the whitespace set `unicode.IsSpace` gives `TrimSpace` contains the ASCII blanks and no digit, letter, sign, point or `:` |
| Decimal.ParseFloatRejectsSecondPoint | cmd/home-smanager/home_smanager.go:77 | `1.2.3`, with a second point, is a syntax error |
| Decimal.ParseFloatRejectsTrailingLetters | cmd/home-smanager/home_smanager.go:77 | `12abc`, with letters after the digits, is a syntax error |
| Decimal.ParseFloatRejectsBareExponent | cmd/home-smanager/home_smanager.go:77 | `1e`, an exponent mark with no digits, is a syntax error |
| Decimal.ParseFloatRejectsLoneSign | cmd/home-smanager/home_smanager.go:77 | `-` alone is a syntax error |
| Decimal.ParseFloatRejectsLetter | cmd/home-smanager/home_smanager.go:77 | text that starts with a letter that cannot begin a float is a syntax error |
| Decimal.ParseFloat | cmd/home-smanager/home_smanager.go:77 | ParseFloat accepts only non-empty text; ParseFloatHead, ParsePointNumber and ParseFormatCents state which text it reads and as what |
| Decimal.ParseFloatHead | cmd/home-smanager/home_smanager.go:77 | text ParseFloat accepts starts with a digit, a sign or a point |
| Decimal.ParseFloatPlain | cmd/home-smanager/home_smanager.go:77 | unsigned digits-and-point text is read as a bare mantissa |
| Decimal.ParsePointNumber | cmd/home-smanager/home_smanager.go:77 | `q.f` with digit strings `q` and `f` parses to q + f/10^len(f) |
| Decimal.ParseFloatOrZero | cmd/home-smanager/home_smanager.go:77 | the applied value is the parsed number, or 0 when ParseFloat reports a syntax error |
| Ingest.EnergyOf | cmd/home-smanager/home_smanager.go:77 | a blank number field is applied as 0; DecodeParsedNumber (every field ParseFloat accepts is applied as its value) and DecodeBadNumberIsZero (every field it rejects is applied as 0) state the other cases |
| Decimal.DigitsOf | internal/mqtt/mock_publisher.go:33 | the integer part printed by `%.2f` is non-empty decimal digits with no leading zero, and it denotes the number |
| Decimal.TwoDigitText | internal/mqtt/mock_publisher.go:33 | the fraction printed by `%.2f` is exactly two digits denoting the hundredths |
| Decimal.RoundCents | internal/mqtt/mock_publisher.go:33 | `%.2f` picks the hundredths nearest the value, ties to even |
| Decimal.FormatCents | internal/mqtt/mock_publisher.go:33 | `%.2f` output has at least four characters with the point third from the end |
| Decimal.FormatCentsShape | internal/mqtt/mock_publisher.go:33 | `%.2f` output starts and ends with a digit and holds only digits and one point |
| Decimal.ParseFormatCents | internal/mqtt/mock_publisher.go:33 | ParseFloat reads `%.2f` output back as exactly the printed hundredths |
| Decimal.RoundCentsExact | internal/mqtt/mock_publisher.go:33 | a value that already has two decimals is printed unchanged |
| Decimal.RoundCentsBound | internal/mqtt/mock_publisher.go:24-26 | a draw in [0, 50) prints as at most 50.00 |
| Decimal.RoundCentsReachesFifty | internal/mqtt/mock_publisher.go:24-33 | the draw 49.999 prints as `50.00`, outside [0, 50) |
| Config.ParseBool | cmd/home-smanager/home_smanager.go:50 | ParseBool accepts exactly the twelve literals, reading the six true ones as true and the six false ones as false |
| Config.ParseBoolOrDefault | cmd/home-smanager/home_smanager.go:48-55 | every ParseBool literal gives true, including `false` and `0`; any other text gives the default |
| Config.ParseBoolOrDefaultCorrected | cmd/home-smanager/home_smanager.go:48-55 | true literals give true, false literals give false, and other text gives the default |
| Config.CorrectedDiffersOnFalseLiterals | cmd/home-smanager/home_smanager.go:48-55 | the written and corrected readings differ exactly on the six false literals |
| Config.MockPublisherEnabled | cmd/home-smanager/home_smanager.go:58 | the publisher runs exactly when the variable holds one of the twelve boolean literals, true or false alike; so `ENABLE_MOCK_PUBLISHER=false` turns it on, and an unset variable or other text (`yes`, `on`) leaves it off |
| Config.MockPublisherEnabledCorrected | cmd/home-smanager/home_smanager.go:58 | the corrected toggle is on only for a true literal |
| Metrics.Labels | cmd/home-smanager/home_smanager.go:32 | a series is exposed with exactly the label names `device`, `room`, `type`, in that order |
| Metrics.LabelsInjective | cmd/home-smanager/home_smanager.go:24-41 | distinct label triples give distinct label sets, so the triple is the series key |
| Metrics.Exposition | cmd/home-smanager/home_smanager.go:27-40 | a series is exposed as one `energy_total_consumption` sample carrying the counter and one `current_energy_consumption` sample carrying the gauge, both with the series' label set |
| Metrics.SampleIdentity | cmd/home-smanager/home_smanager.go:27-40 | a sample's metric name and label set identify the series and the vector it comes from |
| Metrics.Apply | cmd/home-smanager/home_smanager.go:80-81 | the counter of the reading's series grows by the energy (starting from 0 when new), the gauge becomes the energy, and every other series is unchanged |
| Metrics.ApplyTwice | cmd/home-smanager/home_smanager.go:80-81 | the same reading applied twice adds twice its energy to the counter and leaves the gauge at its energy |
| Metrics.AccumulationExample | cmd/home-smanager/home_smanager.go:80-81 | 12.50 then 7.25 on a new series leave counter 19.75 and gauge 7.25 |
| Metrics.ApplyAll | cmd/home-smanager/home_smanager.go:80-81 | handling readings one after another never removes a series; ApplyAllSeries characterises the result |
| Metrics.LastForMentions | cmd/home-smanager/home_smanager.go:81 | a run has a last value for a series exactly when one of its readings selects that series |
| Metrics.ApplyAllSeries | cmd/home-smanager/home_smanager.go:80-81 | after a run, a series exists exactly when it existed or was mentioned; its counter grew by the sum of its readings; its gauge is the last of them; unmentioned series are untouched |
| Metrics.SumForNonNegative | cmd/home-smanager/home_smanager.go:80 | non-negative readings add a non-negative amount to any counter |
| Metrics.CountersNonDecreasing | cmd/home-smanager/home_smanager.go:80 | with non-negative readings no counter ever decreases |
| Metrics.SingleMention | cmd/home-smanager/home_smanager.go:80-81 | a series selected by exactly one reading of a run gains that energy and ends with it as gauge value |
| Metrics.NotMentioned | cmd/home-smanager/home_smanager.go:80-81 | a series that no reading selects gains nothing and has no last value |
| Metrics.DistinctRunAt | cmd/home-smanager/home_smanager.go:80-81 | in a run whose readings select pairwise different series, each series gains its own reading on both metrics |
| Metrics.UntouchedSeries | cmd/home-smanager/home_smanager.go:80-81 | a run leaves every series it does not mention as it was |
| Ingest.Decode | cmd/home-smanager/home_smanager.go:69-77 | a payload decodes exactly when it has at least three delimiters |
| Ingest.DecodeSound | cmd/home-smanager/home_smanager.go:69-77 | the decoded labels are the delimiter-free text before the first, second and third delimiter, and the energy comes from the first segment after the third |
| Ingest.SplitFourFields | cmd/home-smanager/home_smanager.go:69-75 | four delimiter-free fields joined by `:` split into exactly those four segments |
| Ingest.DecodeFields | cmd/home-smanager/home_smanager.go:69-77 | labels and a number field followed by any further segments decode to those labels and the trimmed, parsed number |
| Ingest.DecodeFourFields | cmd/home-smanager/home_smanager.go:69-77 | a four-field payload decodes to its three labels and its parsed number field |
| Ingest.DecodeIgnoresExtraSegments | cmd/home-smanager/home_smanager.go:69-77 | segments after the fourth do not change the decoded reading |
| Ingest.DecodeTrimsNumber | cmd/home-smanager/home_smanager.go:77 | whitespace around the number field does not change the decoded reading |
| Ingest.DecodeRejectsThreeFields | cmd/home-smanager/home_smanager.go:71-77 | `a:b:c` has only three segments and is rejected as malformed |
| Ingest.DecodeBadNumberIsZero | cmd/home-smanager/home_smanager.go:77 | any number field that ParseFloat rejects once trimmed (`1.2.3`, `12abc`, `1e`, ` xyz `) is applied as 0 |
| Ingest.DecodeLetterNumberIsZero | cmd/home-smanager/home_smanager.go:77 | a field such as `xyz`, whose first character can begin no number, is applied as 0 |
| Ingest.DecodeParsedNumber | cmd/home-smanager/home_smanager.go:77 | any number field that ParseFloat accepts once trimmed (`7`, `-3.5`, `1e2`) is applied as exactly the value it reads |
| Ingest.Handle | cmd/home-smanager/home_smanager.go:65-81 | a payload with at least three delimiters is applied to the store as its decoded reading; a shorter one leaves the store unchanged |
| Ingest.HandleAsWritten | cmd/home-smanager/home_smanager.go:69-81 | the handler as written is defined only when segment 3 exists, and there it agrees with the checked handler |
| Ingest.ShortPayloadIndexFault | cmd/home-smanager/home_smanager.go:69-77 | `a:b:c` has no segment 3, so the handler as written cannot index it, and the checked handler leaves the store unchanged |
| Ingest.HandleAllIsApplyAll | cmd/home-smanager/home_smanager.go:65-81 | handling a message stream applies the readings of the decodable payloads in order and skips the others |
| Ingest.HandleAllDecoded | cmd/home-smanager/home_smanager.go:65-81 | a stream whose payloads all decode is handled as the run of their readings |
| Ingest.HandleAll | cmd/home-smanager/home_smanager.go:65-81 | handling a message stream never removes a series; HandleAllIsApplyAll characterises the result |
| Ingest.HandleTwoReadings | cmd/home-smanager/home_smanager.go:80-81 | two messages for one series on a fresh store leave the counter at their sum and the gauge at the second |
| Ingest.CentsFieldValue | cmd/home-smanager/home_smanager.go:77 | a `%.2f` number field contains no delimiter and is read back as exactly its hundredths |
| Ingest.EndToEndCents | cmd/home-smanager/home_smanager.go:77-81 | two `%.2f` messages for one series leave the counter at the sum of the printed values and the gauge at the second |
| MockPublisher.DeviceRoomsShape | internal/mqtt/mock_publisher.go:12-21 | the table maps exactly `device1` to `device8`, onto exactly four rooms |
| MockPublisher.TableDelimiterFree | internal/mqtt/mock_publisher.go:12-21 | no device name, room name or the type `sensor` contains `:` |
| MockPublisher.EncodePayload | internal/mqtt/mock_publisher.go:33 | the payload is at least seven characters longer than its three labels together (three delimiters and at least four characters of number); EncodedSegments states its exact segments |
| MockPublisher.EncodeDecode | internal/mqtt/mock_publisher.go:33 | the subscriber decodes an encoded payload to the same labels and the printed energy, which is within half a hundredth of the encoded value |
| MockPublisher.EncodedSegments | internal/mqtt/mock_publisher.go:33 | an encoded payload splits into exactly four segments: device, room, type and the printed number |
| MockPublisher.EncodeDecodeExact | internal/mqtt/mock_publisher.go:33 | a value with two decimals crosses from publisher to subscriber unchanged |
| MockPublisher.PrintedEnergyBound | internal/mqtt/mock_publisher.go:24-33 | a draw in [0, 50) is printed as a value in [0, 50.00] |
| MockPublisher.PublishedReading | internal/mqtt/mock_publisher.go:30-33 | the reading for a device carries that device, its table room and the type `sensor` |
| MockPublisher.CycleMessage | internal/mqtt/mock_publisher.go:34 | each message goes to the cycle's topic with its QoS and is not retained |
| MockPublisher.CycleMessageDecodes | internal/mqtt/mock_publisher.go:30-34 | a cycle message decodes to its device's reading, with a printed energy in [0, 50.00] |
| MockPublisher.MockPublish | internal/mqtt/mock_publisher.go:28-39 | one cycle sends one non-retained message per visited device on the given topic and QoS; each payload is the `%s:%s:%s:%.2f` text of the device, its room, `sensor` and the draw, splits into exactly those four segments, and decodes to that reading with a printed energy in [0, 50.00] |
| MockPublisher.CycleMessagesPublished | internal/mqtt/mock_publisher.go:30-34 | the messages of one cycle carry the exact `%s:%s:%s:%.2f` payloads, split into four segments and decode to their devices' readings with energy in [0, 50.00] |
| MockPublisher.PublishEach | internal/mqtt/mock_publisher.go:30-37 | the loop over the table emits, in iteration order, exactly one message per visited device, the `i`-th for `order[i]` with draw `values[i]` |
| MockPublisher.EnumerationLength | internal/mqtt/mock_publisher.go:30 | any iteration order of the table visits exactly its eight devices |
| MockPublisher.CycleLength | internal/mqtt/mock_publisher.go:30-37 | one cycle publishes exactly eight messages |
| MockPublisher.CycleReachesEveryDevice | internal/mqtt/mock_publisher.go:30-37 | every device of the table is reported by some message of the cycle |
| MockPublisher.CycleDevicesDistinct | internal/mqtt/mock_publisher.go:30-37 | no device is reported twice in one cycle |
| MockPublisher.CycleUpdatesSeries | internal/mqtt/mock_publisher.go:28-39 | after the subscriber handles a cycle, each device's series has gained its printed energy on the counter and shows it on the gauge |
| MockPublisher.CycleLeavesOthers | internal/mqtt/mock_publisher.go:28-39 | handling a cycle leaves every series outside the table untouched |

## Left out

- `internal/mqtt/mqtt.go` is not part of this model. It only builds the paho client, whose ID is a prefix plus a timestamp.
- `main` wiring is not modelled: the HTTP `/metrics` server, broker connect, subscribe and disconnect, the ticker goroutine and signal handling. All of it is I/O and concurrency.
- `NewMetrics` registration (`MustRegister`) and the help strings are not modelled. The metric names and the label scheme are, in `Metrics.Exposition`.
- The Prometheus vectors are a sequential map. Their internal atomicity under concurrent handlers is not modelled.
- Counter `Add` with a negative value panics in the Prometheus library. That behaviour is not modelled; the non-decreasing lemmas require non-negative readings instead.
- The log lines of `msgHandler` and `init` are not modelled.
- Decimal.ParseFloat: covers only the decimal syntax as exact reals. Its own contract says only that accepted text is non-empty; the lemmas named in its row state what it reads.
  - `inf`, `infinity`, `nan`, hexadecimal floats and underscores are not modelled; the model treats them as syntax errors.
  - Range errors and rounding to float64 are not modelled either, because `real` has neither.
- Decimal.RoundCents: models `%.2f` on the exact value for non-negative numbers only. The publisher never prints a negative value. Binary float64 representation error near a tie is not modelled.
- Metrics.Apply: energies are exact reals, so float64 rounding in the counter sum is not modelled.
- `rand.Seed`, `rand.Float64`, `time.Sleep` and the token waits are not modelled. The draws and the map iteration order are parameters; the waits and the sleep only affect timing.
- The `nil` token returned by `MockPublish` is not modelled.
- Strings are sequences of characters, not UTF-8 bytes. A payload that is not valid UTF-8 is outside the model.

## Findings

| source | as written | input that shows it | evidently intended | confidence | as-written member | corrected member |
|---|---|---|---|---|---|---|
| cmd/home-smanager/home_smanager.go:71-77 | `splitPayload[1]`, `[2]` and `[3]` are indexed without checking the split's length | the payload `a:b:c`, which has three segments, so index 3 is out of range and the handler faults | reject the payload and leave both metric vectors unchanged | not executed | Ingest.HandleAsWritten, Ingest.ShortPayloadIndexFault | Ingest.Handle, Ingest.Decode |
| cmd/home-smanager/home_smanager.go:48-55 | returns `true` whenever `strconv.ParseBool` succeeds, discarding the parsed value | `ENABLE_MOCK_PUBLISHER=false`, which enables the mock publisher | return the parsed value, and the default only when parsing fails | not executed | Config.ParseBoolOrDefault, Config.MockPublisherEnabled | Config.ParseBoolOrDefaultCorrected, Config.MockPublisherEnabledCorrected, Config.CorrectedDiffersOnFalseLiterals |
