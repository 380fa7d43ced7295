# python-ismrmrd-server: the dispatch engine and its helpers, in Dafny

This project models the core of python-ismrmrd-server, an MRD (ISMRMRD)
streaming server. A client sends a stream of acquisitions (raw k-space
lines), images and waveforms. The server groups the records and hands each
group to the handlers of a configuration (a "capability"). It forwards what
the handlers return and closes the stream.

The model covers three parts of the repository:

- `process` in config/__init__.py: the dispatch loop over the inbound
  stream, with the `Settings` record that steers it, and the image grouping
  key `ImageIndices` with its comparison mask.
- mrdhelper.py. This has four helpers:
  - `update_img_header_from_raw` fills an image header from an acquisition
    header;
  - the ICE MiniHeader parameter readers (`extract_minihead_*_param`);
  - `meta_fix_imagedirs` adds image directions to meta attributes;
  - `create_roi` lays out an ROI.
- `checkers` and `MAX` in tests/helpers/__init__.py: the checkerboard test
  volume that the contrast-inversion test relies on.

Modules, one per component:

| module | file | contents |
|---|---|---|
| `Wrappers` | wrappers.dfy | `Option` and `Result` (Python's `None` and raised exceptions) |
| `Text` | text.dfy | Python's `str.isspace`, `str.strip`, `str.lower`, `str(n)` and `int(s)`, stated over `seq<char>` |
| `Mrd` | mrd.dfy | the MRD records, their headers, the acquisition flags and image type constants of the ismrmrd library |
| `ImageIndices` | image_indices.dfy | the grouping key, the mask built from `image_collect`, and `==`, `!=` and `-` under a mask |
| `Config` | config.dfy | `Settings`, a resolved configuration, and the `SETTINGS` of the invertcontrast, saveall and report configurations |
| `Dispatch` | dispatch.dfy | `process` as a pure fold over `seq<Item>` that produces a trace of effects |
| `DispatchProperties` | dispatch_properties.dfy | per-record behaviour, grouping, conservation, and the shape of every session trace |
| `DispatchScenarios` | dispatch_scenarios.dfy | the shipped configurations' masks and small streams whose whole trace is known |
| `MrdHelper` | mrdhelper.dfy | the helpers of mrdhelper.py |
| `TestHelpers` | checkers.dfy | `checkers` and `MAX` |

`process` is modelled as a function. Its input is a resolved configuration
and the inbound items. Its output is the list of effects in order:

- each handler call, with the group and counter it is given;
- `SendImage`, `SendLogging(severity, text)` and `SendClose`, the messages
  sent back.

The comparison mask is an explicit parameter of the engine, not a
class-wide attribute. A handler is a function from (group, counter) to
either the images it returned or the text of the exception it raised.

## Model

| member | source | states |
|---|---|---|
| `ImageIndices.FromNames` | config/__init__.py:44-49 | a configuration list yields a mask exactly when every name is one of the nine index fields; a listed field gets 0 and an unlisted one 1; otherwise the ImportError message names the invalid entries joined by ", " |
| `ImageIndices.InvalidNames` | config/__init__.py:45 | the invalid entries are exactly the list's names that are not index fields |
| `ImageIndices.NoInvalidNames` | config/__init__.py:45-46 | a list made only of field names has no invalid entries |
| `ImageIndices.FieldOfName` | config/__init__.py:31-39 | every valid name belongs to exactly one field |
| `ImageIndices.Compared` | config/__init__.py:52 | the fields a mask compares are exactly those with a non-zero mask value, in field order |
| `ImageIndices.Eq` | config/__init__.py:50-52 | two keys are equal exactly when they agree on every field the mask compares |
| `ImageIndices.Ne` | config/__init__.py:53-55 | two keys differ exactly when some compared field differs, and `!=` is the negation of `==` |
| `ImageIndices.Sub` | config/__init__.py:56-58 | `a - b` holds exactly the compared fields on which the keys differ, in field order, and is empty exactly when `a == b` |
| `ImageIndices.MaskComparesUnlisted` | config/__init__.py:44-52 | with a mask built from a list, keys are compared on exactly the fields the list does not name |
| `ImageIndices.EmptyListMask` | config/__init__.py:48-49 | an empty list gives a mask that is 1 on every field |
| `ImageIndices.EmptyListComparesAll` | config/__init__.py:48-52 | under the mask of an empty list, keys are equal only when identical |
| `ImageIndices.EqIsEquivalence` | config/__init__.py:50-52 | under any mask, key equality is reflexive, symmetric and transitive |
| `ImageIndices.FromHeader` | config/__init__.py:41-43 | the key of an image header holds, for each of the nine fields, the header attribute of that name |
| `Dispatch.Flush` | config/__init__.py:182-188 | a flush starts with the handler call and has no other call after it; it carries an exception exactly when the handler raised |
| `Dispatch.AcquisitionStep` | config/__init__.py:172-192 | an acquisition never ends the loop; when it lets the loop go on, the image and waveform state and the image and waveform counters are untouched and the acquisition counter never goes down |
| `Dispatch.ImageStep` | config/__init__.py:194-217 | an image never ends the loop; when it lets the loop go on, the acquisition and waveform state and their counters are untouched and the image counter never goes down |
| `Dispatch.WaveformStep` | config/__init__.py:219-223 | a waveform changes only the waveform group and the waveform counter, and exactly one of the two grows by one |
| `Dispatch.Step` | config/__init__.py:170-229 | the loop stops exactly at the end marker; only acquisitions and images can raise; waveforms and unsupported objects send nothing; the group counters never go down |
| `Dispatch.Loop` | config/__init__.py:169-229 | a loop that reaches the end of the stream leaves the group counters no lower than it found them |
| `Dispatch.Finish` | config/__init__.py:243-265 | when no end-of-stream flush raises, the effects end with the closing report; when one raises, no report is sent |
| `Dispatch.Session` | config/__init__.py:169-272 | every session ends with Close, whatever the handlers do |
| `Dispatch.Process` | config/__init__.py:145-272 | `process` fails exactly when `image_collect` names something that is not an index field; otherwise its trace ends with Close |
| `Dispatch.ReportsFrom` | config/__init__.py:257-265 | the closing report has one INFO message per non-zero counter |
| `DispatchProperties.AcquisitionOutcome` | config/__init__.py:172-192 | an acquisition is counted as ignored when acquisitions are not kept, else as of the wrong type when it has an ignore flag, else it is appended to the group |
| `DispatchProperties.TriggerFlushesGroup` | config/__init__.py:176-188 | a trigger flag is checked after the append: the handler gets the group that ends with this acquisition, under the current counter; on return, a non-empty result is sent, the group is emptied, the counter goes up by one and nothing else in the state changes; a raise aborts the loop |
| `DispatchProperties.DroppedImage` | config/__init__.py:194-217 | an image that is not kept, or not of a selected type, only increments its counter; groups and key stay as they were |
| `DispatchProperties.FirstImageStartsGroup` | config/__init__.py:199-213 | the first accepted image sets the key and starts the group |
| `DispatchProperties.MatchingImageJoinsGroup` | config/__init__.py:204-213 | an accepted image whose key equals the group's under the mask is appended, with no handler call |
| `DispatchProperties.DifferingImageSplitsGroup` | config/__init__.py:204-213 | an accepted image whose key differs hands the non-empty group to the image handler under the current counter; a raise aborts with that call alone and the handler's exception text; on return the trace is the call then the returned images when there are any, and the image alone starts the next group, under the next counter, with its own key, and nothing else in the state changes |
| `DispatchProperties.ImageGrouping` | config/__init__.py:194-213 | an accepted image: the first one sets the key and starts the group, silently; one with a matching key is appended, silently; one with a differing key gives the call on the old group and counter, then the returned images when there are any, or aborts with the handler's exception text |
| `DispatchProperties.WaveformNeverHandled` | config/__init__.py:219-223 | a waveform is appended or counted as ignored; nothing else changes and no handler runs |
| `DispatchProperties.UnsupportedSkipped` | config/__init__.py:228-229 | an object of an unsupported type changes nothing and the loop goes on |
| `DispatchProperties.StepPreservesInv` | config/__init__.py:199-213 | the image key is set exactly while the image group is non-empty |
| `DispatchProperties.ConsecutiveImages` | config/__init__.py:204-213 | two accepted images in a row with equal keys are never separated by a handler call; two with differing keys are separated by exactly one, and the second starts the new group |
| `DispatchProperties.LoopStopsAtEndMarker` | config/__init__.py:225-226 | the loop does not look at anything after the end marker |
| `DispatchProperties.SessionStopsAtEndMarker` | config/__init__.py:225-272 | a session that meets the end marker behaves as if the stream ended there |
| `DispatchProperties.StepConserves` | config/__init__.py:172-229 | each step keeps every acquisition and image either in its group, in a drop counter, or handed to a handler, exactly once |
| `DispatchProperties.LoopConserves` | config/__init__.py:170-229 | over the whole loop, every acquisition and image before the end marker is in its group, in a drop counter, or was handed to a handler |
| `DispatchProperties.FinishHandsOverGroups` | config/__init__.py:243-265 | at the end of the stream the acquisition group is handed over first, then the image group, each only when non-empty and each followed by its returned images when there are any; a raise by the first stops everything after it; the report comes last and only when neither raised; every remaining acquisition and image is handed over |
| `DispatchProperties.RemainingFlushes` | config/__init__.py:243-255 | each end-of-stream flush is the call and its returned images when the group is non-empty and nothing otherwise, and carries the exception exactly when its handler raised |
| `DispatchProperties.SessionConserves` | config/__init__.py:170-265 | in a session that no handler aborts, acquisitions (images) seen = handed to handlers + ignored + of the wrong type |
| `DispatchProperties.FlushWellFormed` | config/__init__.py:182-188 | a flush of a non-empty group is the handler call followed by the returned images when there are any; a raise leaves the call alone and carries exactly the handler's exception text |
| `DispatchProperties.StepWellFormed` | config/__init__.py:170-229 | a step never sends Close or ERROR and calls handlers only on non-empty groups; in a step that goes on, every call returned and is followed by its returned images when there are any; a step that aborts ends with the call whose handler raised that exception |
| `DispatchProperties.LoopWellFormed` | config/__init__.py:170-229 | the same of the whole loop: when it reaches the end of the stream every call returned and is followed by what it returned; when it is aborted it ends with the call of the handler whose exception aborted it, every earlier call having returned |
| `DispatchProperties.FinishWellFormed` | config/__init__.py:243-265 | the end-of-stream flushes and reports never send Close or ERROR; without a raise every call is followed by what it returned, and with one the effects end with the call whose handler raised that exception |
| `DispatchProperties.SessionSplit` | config/__init__.py:169-272 | every session trace is a well-formed body and then Close; with every item read without failure, an ERROR message comes just before Close exactly when a handler raised, it carries that handler's exception text, and the body then ends with that handler's call; every other call returned and is followed by what it returned |
| `DispatchProperties.SessionClosesOnce` | config/__init__.py:267-272 | Close is sent exactly once in every session, and it is the last message |
| `DispatchProperties.ErrorEndsSession` | config/__init__.py:267-272 | with every item read without failure, an ERROR message comes only right after a handler call whose handler raised exactly the text the message carries, and only Close follows it: no group is flushed and no report is sent afterwards |
| `DispatchProperties.ForwardedResults` | config/__init__.py:182-254 | every image message comes right after a handler call and carries exactly the non-empty list that handler returned; handlers are only given non-empty groups |
| `DispatchProperties.HandlerResultsFollowCalls` | config/__init__.py:182-272 | after every handler call in a session comes what came of it: its returned images when there are any, no image message when it returned none, and when it raised the ERROR message with its exception text, then Close, and nothing else |
| `DispatchProperties.ProcessOutcome` | config/__init__.py:145-272 | `process` fails before sending anything exactly when `image_collect` names an unknown field; otherwise its trace ends with the one Close |
| `DispatchProperties.NoReportIffAllZero` | config/__init__.py:257-262 | no report is sent exactly when all counters are zero |
| `DispatchProperties.ReportsFromInOrder` | config/__init__.py:257-265 | the report from a list of counts is one INFO message per non-zero count, in list order, each with that count and its label |
| `DispatchProperties.ReportsInOrder` | config/__init__.py:257-265 | the closing report goes through acq_ignored, acq_wrongtype, image_ignored, image_wrongtype and waveform_ignored in that order, with one message per non-zero counter carrying its count and label |
| `DispatchProperties.ReportCountRoundTrip` | config/__init__.py:263 | the count in a report message can be read back from its text |
| `DispatchScenarios.InvertContrastMaskValue` | config/invertcontrast.py:15-22 | invertcontrast's mask compares every field but the slice |
| `DispatchScenarios.SaveAllMaskValue` | config/saveall.py:9-17 | saveall's mask is the same |
| `DispatchScenarios.SliceCollectingMask` | config/invertcontrast.py:22 | under that mask, keys match when they agree on every field but the slice |
| `DispatchScenarios.ReportMaskComparesSeriesOnly` | config/report.py:17-18 | under report's mask, keys match exactly when their series indices do |
| `DispatchScenarios.ReportComparesSeriesOnly` | config/report.py:17-18 | report's list gives a mask that compares the series index and nothing else |
| `DispatchScenarios.ReportCollectsAllButSeries` | config/report.py:17 | report lists every index field but the series index |
| `DispatchScenarios.SeriesOnlyMask` | config/__init__.py:50-52 | a mask that compares only the series index makes keys equal exactly when their series indices are |
| `DispatchScenarios.MagnitudeSelectedByReport` | config/report.py:8-16 | report keeps images and selects magnitude images |
| `DispatchScenarios.UnknownFieldRefused` | config/__init__.py:45-47 | a misspelt field name is refused, and the message names it |
| `DispatchScenarios.QuietFinishOfImageGroup` | config/__init__.py:243-265 | with only an image group left and nothing dropped, the end is one image handler call |
| `DispatchScenarios.QuietImageEnd` | config/__init__.py:243-272 | the same, as a whole session ending in Close |
| `DispatchScenarios.QuietFinishOfAcquisitionGroup` | config/__init__.py:243-248 | with only an acquisition group left and nothing dropped, the end is one acquisition handler call |
| `DispatchScenarios.UntriggeredAcquisitionJoins` | config/__init__.py:174-180 | an acquisition that is kept but does not trigger only joins the group |
| `DispatchScenarios.FlaglessAcquisitionUnderSaveAll` | config/saveall.py:9-11 | under saveall, an acquisition without flags is kept and does not trigger |
| `DispatchScenarios.ThreeUntriggeredLoop` | config/__init__.py:172-192 | three flagless acquisitions under saveall end the loop in one group of three |
| `DispatchScenarios.ThreeUntriggeredAcquisitions` | config/__init__.py:243-272 | three acquisitions without a trigger and then the end of the stream give one handler call, on all three, under counter 0, then Close |
| `DispatchScenarios.MatchingImageJoins` | config/__init__.py:204-213 | a kept image whose key matches the group's joins the group |
| `DispatchScenarios.DifferingImageSplits` | config/__init__.py:204-213 | a kept image whose key differs hands the group over and starts the next |
| `DispatchScenarios.SameSeriesJoins` | config/__init__.py:204-213 | under report, a magnitude image of the group's series joins the group |
| `DispatchScenarios.NewSeriesSplits` | config/__init__.py:204-213 | under report, a magnitude image of another series hands the group over and starts the next |
| `DispatchScenarios.SeriesChangeLoop` | config/__init__.py:194-213 | images of series 0, 0, 1 under report: group 0 of the first two is handed over when the third arrives |
| `DispatchScenarios.SeriesChangeSplitsImages` | config/__init__.py:194-272 | the whole session of that stream: group 0 of two images, then group 1 of one image at the end, then Close |
| `DispatchScenarios.OneWrongtypeAcquisitionReport` | config/__init__.py:257-265 | one acquisition of an ignored type gives exactly one INFO report |
| `DispatchScenarios.NoiseLoop` | config/__init__.py:172-190 | under invertcontrast, a noise acquisition is counted as of the wrong type, not appended |
| `DispatchScenarios.NoiseAcquisitionCountedAsWrongType` | config/__init__.py:172-272 | that session sends only the wrong-type report and Close |
| `DispatchScenarios.RaisingLoop` | config/__init__.py:180-188 | a triggered handler that raises aborts the loop after its call |
| `DispatchScenarios.EchoedSeriesLoop` | config/__init__.py:204-213 | under report, with handlers that send back what they get, a second image of another series hands the first over and its group is sent back at once |
| `DispatchScenarios.EchoedSeriesChange` | config/__init__.py:194-272 | that whole session: each series is handed over under its own counter, each group is sent back right after its call, then Close |
| `DispatchScenarios.RaisingHandlerStillCloses` | config/__init__.py:267-272 | a raising handler gives the call, the ERROR message and Close, and the rest of the stream is not read |
| `Text.Trim` | mrdhelper.py:98 | `str.strip` gives a slice with only whitespace around it that neither starts nor ends with whitespace |
| `Text.TrimOfPadded` | mrdhelper.py:98 | stripping undoes whitespace padding around a text without whitespace at its ends |
| `Text.ParseIntReadsNumeral` | mrdhelper.py:76 | whenever `int()` gives n, the stripped text is an optional minus sign, some leading zeros and `str()` of the magnitude of n, with the sign present when n is negative |
| `Text.ParseIntOfPadded` | mrdhelper.py:73-76 | digits with whitespace around them are not whitespace only, and `int()` of them is their value |
| `Text.ParseIntOfIntToString` | mrdhelper.py:76 | `int(str(n))` is n, also with whitespace around the text |
| `Text.Lower` | mrdhelper.py:61 | `str.lower` keeps the length, leaves no capital letter, turns each capital into its small letter and keeps every other character |
| `Text.LowerIdempotent` | mrdhelper.py:61 | lowering twice is lowering once |
| `Text.NatToString` | config/__init__.py:263 | `str(n)` is a non-empty string of digits without a leading zero |
| `Text.DigitsValueOfNatToString` | config/__init__.py:263 | reading back the decimal text of a number gives the number |
| `MrdHelper.UpdateImgHeaderFromRaw` | mrdhelper.py:6-50 | without a raw header the image header is returned unchanged; otherwise every field with a counterpart in the raw header is copied, image type is MAGNITUDE, image index 1, series index 0, and the fields set at image creation are kept |
| `MrdHelper.UpdateIdempotent` | mrdhelper.py:22-48 | filling a header twice from the same raw header is the same as filling it once |
| `MrdHelper.UpdateForgetsOldHeader` | mrdhelper.py:12-48 | apart from the fields set at image creation, the filled header depends on the raw header alone |
| `MrdHelper.FilledImagesShareKey` | mrdhelper.py:22-45 | images filled from acquisitions of one measurement with the same average, slice, contrast, phase, repetition and set counters get the same grouping key |
| `MrdHelper.Search` | mrdhelper.py:55-56 | `re.search` with the look-behind finds the first position where a `<ParamKind?"name">{` tag ends, and when it finds none there is no such position |
| `MrdHelper.FirstTag` | mrdhelper.py:55-56 | the search finds the first position after a `<ParamKind?"name">{` tag, and none before it |
| `MrdHelper.FoundAfterPlainText` | mrdhelper.py:55-56 | after text without a `<`, the search finds the tag that follows |
| `MrdHelper.BraceFreeCapture` | mrdhelper.py:55 | `\s*[^}]*\s*` captures everything up to the next `}` or the end of the text |
| `MrdHelper.CaptureOfRendered` | mrdhelper.py:55-56 | the capture after a written parameter is its padded value |
| `MrdHelper.ExtractBool` | mrdhelper.py:52-64 | a missing bool parameter reads as false |
| `MrdHelper.BoolAt` | mrdhelper.py:58-64 | with a tag found and any whitespace, or none, around the value, the bool is true exactly when the lowered value is `"true"` |
| `MrdHelper.BoolRoundTrip` | mrdhelper.py:52-64 | a written bool parameter reads as true exactly when its value is `"true"` in any letter case |
| `MrdHelper.ExtractString` | mrdhelper.py:90-98 | a string parameter is None exactly when its tag is missing; otherwise it is the capture after the first tag with only whitespace removed around it, and it neither starts nor ends with whitespace |
| `MrdHelper.StringAt` | mrdhelper.py:95-98 | with a tag found and any whitespace, or none, around the value, the string is the value |
| `MrdHelper.StringRoundTrip` | mrdhelper.py:90-98 | a written string parameter reads back as its value |
| `MrdHelper.LongCapture` | mrdhelper.py:68 | `\s*\d*\s*` captures a slice of the text right after the tag |
| `MrdHelper.ReadLong` | mrdhelper.py:71-76 | a whitespace-only capture reads as 0; any successful read gives a number |
| `MrdHelper.ExtractLong` | mrdhelper.py:66-76 | a long parameter is None exactly when its tag is missing |
| `MrdHelper.LongCaptureWithoutDigits` | mrdhelper.py:68 | with no digits after the whitespace, the capture is that whitespace |
| `MrdHelper.LongCaptureWithDigits` | mrdhelper.py:68-76 | with digits after the whitespace, `int()` of the capture reads exactly those digits |
| `MrdHelper.LongValue` | mrdhelper.py:66-76 | the whole reader: no tag gives None; digits after optional whitespace give their value; with no digits the value is 0 after whitespace and a ValueError right after the tag |
| `MrdHelper.LongAt` | mrdhelper.py:66-76 | digits between single spaces after the tag are the value |
| `MrdHelper.LongRoundTrip` | mrdhelper.py:66-76 | a written non-negative long parameter reads back as its number |
| `MrdHelper.LongCaptureBeforeMinus` | mrdhelper.py:68 | a minus sign after the padding space stops the capture at that space |
| `MrdHelper.NegativeLongReadsAsZero` | mrdhelper.py:68-74 | as written, a negative long parameter reads as 0 |
| `MrdHelper.SignedLongCapture` | mrdhelper.py:68 | the corrected pattern `\s*-?\d*\s*` captures a slice of the text right after the tag |
| `MrdHelper.ExtractSignedLong` | mrdhelper.py:66-76 | the corrected reader is None exactly when the tag is missing |
| `MrdHelper.SignedLongAgreesWithoutMinus` | mrdhelper.py:66-76 | the corrected reader agrees with the original unless a minus sign follows the whitespace |
| `MrdHelper.SignedLongRoundTrip` | mrdhelper.py:66-76 | the corrected reader gives back every written integer, negative ones included |
| `MrdHelper.ExtractDouble` | mrdhelper.py:78-88 | a double parameter is None exactly when its tag is missing, and 0.0 when the value is whitespace only ; otherwise `float()` is given the whole capture, whitespace included, and its value or its error is the result |
| `MrdHelper.DoubleRoundTrip` | mrdhelper.py:78-88 | a written double parameter reads back as what `float()` makes of its value with the single spaces around it |
| `MrdHelper.MetaFixImageDirs` | mrdhelper.py:100-106 | `ImageRowDir` (`ImageColumnDir`) is added from the read (phase) direction only when missing; present values and all other keys are unchanged |
| `MrdHelper.MetaFixIdempotent` | mrdhelper.py:100-106 | fixing the directions twice is the same as once |
| `MrdHelper.MetaFixKeepsPresent` | mrdhelper.py:102-106 | meta attributes that carry both directions are left alone |
| `MrdHelper.RoiNumbers` | mrdhelper.py:141-155 | the ROI exists exactly when y is at least as long as x; it has 6 + 2·len(x) entries and starts with colour, thickness, style and visibility |
| `MrdHelper.PointsOfInterleave` | mrdhelper.py:141-153 | the x, y pairs of an ROI are read back as the points |
| `MrdHelper.RoiRoundTrip` | mrdhelper.py:141-155 | reading the points back from an ROI gives the points it was made from |
| `MrdHelper.CreateRoi` | mrdhelper.py:127-155 | the list of strings has 6 + 2·len(x) entries: the six header numbers, then x[i] at 6+2i and y[i] at 7+2i, each formatted; an IndexError when y is shorter than x |
| `TestHelpers.Checkers` | tests/helpers/__init__.py:13-22 | the volume has shape nz×ny×nx and holds MAX where x+y+z is even and 0 elsewhere |
| `TestHelpers.CheckerValues` | tests/helpers/__init__.py:10-21 | every voxel is 0 or MAX and fits the 16-bit unsigned array |
| `TestHelpers.CornerIsMax` | tests/test_invert.py:21 | voxel (0, 0, 0) is MAX |
| `TestHelpers.NeighboursDiffer` | tests/helpers/__init__.py:18-21 | voxels next to each other along any one axis differ |

## Left out

- Resolving a configuration by name (config/__init__.py:80-142) is left out: file-system probing, dynamic import and the fallback configuration. The resolved configuration is an input.
- A boolean `image_collect` (as in the analyzeflow, bartfire, simplefft and saveimages configurations) is left out. It hits neither branch of the `ImageIndices` constructor, and the model takes a list only.
- `check_metadata` and every `logging.*` call that only writes the server's own log are left out. Only messages sent over the connection are in the trace.
- The waveform group is kept but never used by `process`, so only its contents are modelled.
- The handlers' own sends over the connection, and exceptions from the connection's send calls, are left out: handlers are pure functions of (group, counter).
- Exceptions raised while reading the next item from the connection (config/__init__.py:170) are left out: such a failure sends ERROR and then Close, with no group flushed and no report sent. The model's items are read without failure, so every ERROR in a modelled trace comes from a handler.
- The handlers' numerics (FFT, normalisation, the external BART call) and `client.py` are left out.
- The wire codec and the connection class are not part of this model.
- `write_example`, `mrd_data` and `test_invert` (DICOM and HDF5 I/O, a shell script) are left out.
- Python's `float()` and the `{:.18f}` and `%f` formats are left out. They are function parameters (`parse`, `fmt`).
- Acquisition flags are a set of flag numbers, not the 64-bit word. `is_flag_set(f)` is membership.
- A handler's return value is a list of images. A returned single image is a one-element list, `None` the empty list. "Truthy" is "non-empty".
- The exception text is the text the handler raised. The traceback formatting is left out.
- Counters are unbounded, as Python's integers are.
- MrdHelper.FirstTag: the parameter name is matched literally. Regex metacharacters in a name are not interpreted.
- MrdHelper.LongCapture: `\d` is restricted to the ASCII digits. Python also accepts other Unicode decimal digits.
- Text.ParseInt: a leading `+`, underscores and non-ASCII digits are left out. The text of its ValueError is Python's own and is not part of any contract.
- Text.Lower: only ASCII letters are lowered.
- MrdHelper.MetaFixImageDirs: a key present with the value `None` is not modelled. Meta values are lists of strings.
- MrdHelper.ExtractBool: its own contract only states the missing-tag case. The found case is stated by MrdHelper.BoolAt and MrdHelper.BoolRoundTrip.
- MrdHelper.ExtractLong: its own contract only states the missing-tag case. The rest is stated by MrdHelper.LongValue.
- MrdHelper.ReadLong: its own contract states the whitespace case only. The digits case is stated by MrdHelper.LongCaptureWithDigits and MrdHelper.LongValue.
- MrdHelper.LongCapture: its own contract only says the capture is the text right after the tag. What it holds is stated by MrdHelper.LongCaptureWithoutDigits and MrdHelper.LongCaptureWithDigits.
- MrdHelper.SignedLongCapture: its own contract only says the capture is the text right after the tag. What it holds is stated through MrdHelper.SignedLongRoundTrip.
- MrdHelper.ExtractSignedLong: its own contract only states the missing-tag case. The rest is stated by MrdHelper.SignedLongAgreesWithoutMinus and MrdHelper.SignedLongRoundTrip.
- Dispatch.ReportsFrom: its own contract states the number and severity of the messages. Their order and texts are stated by DispatchProperties.ReportsFromInOrder.
- The round-trip lemmas place the parameter after text without `<`. An earlier tag of the same name would be found first.
- Only `Exception` is caught (config/__init__.py:267). A `BaseException` such as `SystemExit` from a handler would skip the ERROR message and leave the `finally` to send Close alone; handlers here only return or raise an `Exception`.
- MrdHelper.CreateRoi: the defaults of `create_roi` (mrdhelper.py:127: `rgb=(1,0,0)`, `thickness=1`, `style=0`, `visibility=1`) are not modelled; every argument is a parameter.
- MrdHelper.MetaFixImageDirs: `meta_fix_imagedirs` (mrdhelper.py:100-106) changes `meta` in place and returns None; the model returns the updated map instead, and aliasing is not modelled.
- MrdHelper.UpdateImgHeaderFromRaw: `update_img_header_from_raw` (mrdhelper.py:22-50) changes `imgHead` in place and then returns it; the model builds and returns a new header, and aliasing is not modelled.

How the engine behaves, where a reader might expect otherwise:

- An object of an unsupported type is logged locally and skipped. It is not fatal, and no ERROR message is sent.
- The fields listed in `image_collect` are the ones NOT compared. The mask is the complement of the list. So the series-change scenario uses report's configuration, which compares only the series index.
- A handler's result is sent once, as a whole, with `send_image`, and only when it is non-empty.
- An unknown name in `image_collect` raises before the guarded block. Nothing is sent, not even Close.
- When a handler raises, the remaining groups are not flushed and no report is sent. Only the ERROR message and Close follow.

## Findings

| source | as written | input that shows it | evidently intended | confidence | as-written member | corrected member |
|---|---|---|---|---|---|---|
| mrdhelper.py:68-76 | `\s*\d*\s*` has no place for a minus sign, so the capture stops at `-` and the whitespace before it reads as 0 | `<ParamLong."N">{ -5 }` reads as 0 | the signed value, -5 | medium, not executed | `MrdHelper.NegativeLongReadsAsZero` | `MrdHelper.SignedLongRoundTrip` |
