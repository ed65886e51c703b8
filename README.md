# PARIS player/exporter engine in Dafny

This project models the deterministic engine of `paris_player_exporter.py`, the
PARIS timing-file player and exporter, and proves properties of the model. The
engine has two parts.

- **The schedule parser** is `parse_paris`. It reads a `.paris` timing file
  line by line. Each line is stripped. Blank lines, `#` comments and header lines
  (any line whose lower-cased text starts with `duration_ms`) are skipped. The
  line is then split on `,` and every field is stripped. A line counts only when it
  has exactly two fields, both parse as integers, and the duration is at least
  zero. The value is normalised to 0 or 1. The parser fails when no line yields a
  row.
- **The PCM16 synthesiser** is `synthesize_pcm16`. It first clamps the tone
  frequency, sample rate, volume and ramp time into their ranges. It then walks
  the rows, keeping a running absolute sample index `t`:
  - a row whose rounded length is not positive is skipped;
  - a silence row appends `seg_len` zero samples;
  - a tone row appends one sample per position. The sample is the oscillator value
    at `t`, multiplied by the volume and the envelope, clamped to [-1, 1], scaled by
    32767, truncated, and packed as a little-endian signed 16-bit integer.

Files:

- `wrappers.dfy`: `Option` and `Result`.
- `text.dfy`: the Python string built-ins the parser uses: `str.strip()`,
  `str.lower()`, `str.startswith`, `str.split(',')` and `int()` on a field.
- `schedule.dfy`:
  - `ParseLine` is the decision the loop body makes for one line;
  - `Rows` is the rows of all lines, an order-preserving filter-map;
  - `ParseParis` is the loop itself, with `continue` and the in-place appends,
    proved equal to `Rows`.
- `pcm.dfy`: quantisation, the `struct.pack('<h', s)` encoding, its decoder,
  and buffer packing.
- `synth.dfy`:
  - parameter clamping, `seg_len` and `ramp_samples`;
  - the three-way envelope branch;
  - `Samples`, the specification of the whole sample buffer;
  - `SynthesizePcm16`, the nested loop that grows `frames` and `t`, proved equal
    to `Pack(Samples(...))`.

The header test is a prefix test on the whole stripped, lower-cased line, not a
test of its first field. It applies to every line of the file, not only the first,
so it also skips lines such as `duration_ms5,1` and `Duration_MS_x,3`
(`Schedule.IsHeader`, `Schedule.HeaderLine`).

## Model

| member | source | states |
|---|---|---|
| Schedule.ParseParis | paris_player_exporter.py:33-56 | The loop (its `continue`s and `rows.append`) succeeds exactly when some line yields a row. On success it returns those rows in line order, a non-empty list of valid rows. Otherwise it fails with the no-timing-rows error. |
| Schedule.ParseLine | paris_player_exporter.py:38-53 | A line either yields no row or one valid row: a duration of at least 0 and a value of 0 or 1. |
| Schedule.Rows | paris_player_exporter.py:37-51 | The lines yield at most one row each. |
| Schedule.FilterMap | paris_player_exporter.py:37-51 | Keeping the `Some` results of a function over a list gives at most as many results as inputs. |
| Schedule.RowsAppend | paris_player_exporter.py:37-51 | The parser is an order-preserving filter: the rows of concatenated line sequences are the concatenation of their rows. |
| Schedule.SkippedLine | paris_player_exporter.py:37-53 | A line that yields no row can be inserted anywhere without changing the result. |
| Schedule.RowsValid | paris_player_exporter.py:47-51 | Every returned row has a duration of at least 0 and a value of 0 or 1. |
| Schedule.Normalise | paris_player_exporter.py:49 | `1 if v else 0` is 0 or 1, and is 0 exactly when `v` is 0. |
| Schedule.RowsEmpty | paris_player_exporter.py:54-56 | The row list is empty, so the parser raises, exactly when every line is skipped. |
| Schedule.SkipRules | paris_player_exporter.py:38-53 | Each of these yields no row: a blank line, a `#` comment, a header, a line with other than two fields, an unparseable field, a negative duration. |
| Schedule.AcceptedLine | paris_player_exporter.py:38-51 | A line that yields a row passes every test: it is not blank, not a comment, not a header, has exactly two fields that both parse, and its duration is at least 0. The row is that duration and the normalised value. |
| Schedule.HeaderLine | paris_player_exporter.py:41-42 | A line starting with `duration_ms` yields no row, whatever follows it, even two integer fields. |
| Schedule.HeaderKept | paris_player_exporter.py:38-41 | Stripping keeps the leading `duration_ms`, so the header test sees it. |
| Schedule.HeaderNeverHidesRow | paris_player_exporter.py:41-48 | A header line's first field never parses as an integer, so the header test never discards a line the field checks would accept. |
| Schedule.DataLine | paris_player_exporter.py:43-51 | The line `str(d),str(v)` yields the row `(d, 1 if v else 0)` when `d >= 0`, and no row otherwise. |
| Text.Lower | paris_player_exporter.py:41 | `str.lower()` keeps the length, maps each character by itself, and leaves no upper-case ASCII letter. |
| Text.LowerChar | paris_player_exporter.py:41 | An upper-case ASCII letter becomes the lower-case letter at the same distance from `a`; every other character is unchanged. |
| Text.LowerIdempotent | paris_player_exporter.py:41 | Lower-casing twice gives the same as lower-casing once. |
| Text.StripAll | paris_player_exporter.py:43 | `[p.strip() for p in ...]` keeps the number of fields, and no field starts or ends with whitespace. |
| Text.Strip | paris_player_exporter.py:38 | `str.strip()` is the slice left after removing whitespace at both ends. It neither starts nor ends with whitespace, and it is empty exactly when the line is all whitespace. |
| Text.StripKeeps | paris_player_exporter.py:38 | Stripping never removes a non-whitespace character. |
| Text.StripFixed | paris_player_exporter.py:43 | A field with no whitespace at either end strips to itself. |
| Text.Split | paris_player_exporter.py:43 | `split(',')` gives at least one field, no field contains `,`, and joining the fields with `,` gives the line back. |
| Text.SplitJoin | paris_player_exporter.py:43 | Splitting a `,`-join of comma-free fields gives those fields back. |
| Text.ParseInt | paris_player_exporter.py:47-48 | A parsed field starts with a sign or a digit. A `-` result is at most 0; any other result is at least 0. |
| Text.ParseFormat | paris_player_exporter.py:47-48 | `int(str(i)) == i` for every integer `i`. |
| Text.ParseNegative | paris_player_exporter.py:47-48 | `int("-" + str(n)) == -n` for every natural `n`. |
| Text.ParsePadded | paris_player_exporter.py:47-48 | With a sign of `""`, `"+"` or `"-"` and any number of leading zeros, `int(sign + "0" * z + str(n))` is `n`, negated for `-`. |
| Text.ParseIntShape | paris_player_exporter.py:47-48 | A parsed field ends with a digit. After the first character it holds only digits and underscores, and every underscore sits between two digits. |
| Text.ParseIntAccepts | paris_player_exporter.py:47-48 | `int` reads `+7` and `007` as 7 and `-0` as 0. |
| Text.ParseUnderscore | paris_player_exporter.py:47-48 | `int("1_000")` is 1000. |
| Text.ParseIntRejects | paris_player_exporter.py:47-48 | `int` rejects `""`, `-`, `1.5`, `1e3`, `1__0` and `_1`, so such a line is skipped. |
| Pcm16.Truncate | paris_player_exporter.py:91 | `int(x)` truncates toward zero: for `x >= 0` it is the largest integer at most `x`, and for `x < 0` the smallest at least `x`. |
| Pcm16.ClampUnit | paris_player_exporter.py:91 | `max(-1.0, min(1.0, x))` lies in [-1, 1], is `x` inside that range, and the nearer bound outside it. |
| Pcm16.Pack | paris_player_exporter.py:92-96 | The appended samples take two bytes each. |
| Pcm16.Quantise | paris_player_exporter.py:91 | Whatever the amplitude, the sample lies in [-32767, 32767]. It saturates at or beyond ±1, keeps the amplitude's sign, and inside [-1, 1] it is the amplitude times 32767, truncated toward zero. |
| Pcm16.EncodeLE16 | paris_player_exporter.py:92 | `struct.pack('<h', s)` is two bytes, low byte first: `s mod 256`, then `(s div 256) mod 256`. |
| Pcm16.DecodeEncode | paris_player_exporter.py:92 | Decoding the two packed bytes gives the sample back. |
| Pcm16.EncodeDecode | paris_player_exporter.py:92 | Every pair of bytes is the packing of exactly one sample: the encoding is a bijection. |
| Pcm16.UnpackPack | paris_player_exporter.py:92 | Reading a packed buffer back two bytes at a time gives the samples that were packed. |
| Pcm16.PackAt | paris_player_exporter.py:92 | Sample `k` of a buffer occupies bytes `2k` and `2k+1`. |
| Pcm16.PackZeros | paris_player_exporter.py:96 | `n` zero samples pack to `b'\x00\x00' * n`. |
| Synth.ClampParams | paris_player_exporter.py:61-64 | The effective parameters lie in range: sample rate in [8000, 192000], volume in [0, 1], frequency in [50, 6000], ramp in [0, 50]. Each is saturated, never rejected, and parameters already in range are unchanged. |
| Synth.ClampIdempotent | paris_player_exporter.py:61-64 | Clamping a second time changes nothing. |
| Synth.RoundHalfEven | paris_player_exporter.py:72 | `round(num / den)` is the nearest integer, and the even one on a tie. |
| Synth.SegLen | paris_player_exporter.py:72 | `int(round(samplerate * dur_ms / 1000))`; its sign is stated by `Synth.SegLenPositive`. |
| Synth.SegLenPositive | paris_player_exporter.py:72-74 | At every clamped sample rate, a row has a positive `seg_len` exactly when its duration is positive. A zero duration gives `seg_len` 0. |
| Synth.RampSamples | paris_player_exporter.py:65 | `ramp_samples` is `samplerate * ramp_ms / 1000` truncated, and at most 9600 for clamped parameters. |
| Synth.EnvelopeBranch | paris_player_exporter.py:80-89 | Without a ramp the branch is flat. A fade-in keeps the local index `n`, which is below `ramp_samples`. A fade-out comes only once `n >= ramp_samples`, with `k = seg_len - n` and `k <= ramp_samples`. |
| Synth.EnvelopeGain | paris_player_exporter.py:82-88 | The flat branch has gain 1. When `cos` stays within [-1, 1], the raised-cosine gain `0.5 * (1 - cos(...))` lies in [0, 1]. |
| Synth.NoRampIsFlat | paris_player_exporter.py:80-89 | With `ramp_samples == 0` every position takes the flat branch. |
| Synth.NoRampUnitGain | paris_player_exporter.py:80-89 | With `ramp_samples == 0` the envelope is exactly 1 at every position. |
| Synth.EnvelopePrecedence | paris_player_exporter.py:80-87 | With a ramp, fade-in is chosen exactly when `n < ramp_samples`, so it takes precedence. Fade-out is chosen otherwise within the last `ramp_samples` positions, with `k = seg_len - n` and `1 <= k <= ramp_samples`. The flat branch covers the rest. |
| Synth.ShortToneOnlyFadesIn | paris_player_exporter.py:80-85 | A tone no longer than the ramp fades in over its whole length and never fades out. |
| Synth.ToneSample | paris_player_exporter.py:90-91 | A tone sample lies in [-32767, 32767], and it is 0 at volume 0. |
| Synth.Oscillator | paris_player_exporter.py:90 | The oscillator at index 0 is `sin(0)`. When `sin` stays within [-1, 1], so does the oscillator. |
| Synth.Amplitude | paris_player_exporter.py:90 | `volume * env * sin(...)` is 0 when the volume or the envelope is 0. |
| Synth.SegmentSamples | paris_player_exporter.py:72-97 | One row contributes `seg_len` samples when `seg_len > 0` and none otherwise, and every sample lies in [-32767, 32767]. |
| Synth.SegmentAt | paris_player_exporter.py:76-97 | Local sample `n` of a row starting at `t0` is the tone sample with envelope index `n` and oscillator index `t0 + n`, or 0 for silence. |
| Synth.SamplesLength | paris_player_exporter.py:71-99 | The buffer holds exactly the sum over rows of `seg_len` for rows with `seg_len > 0`. |
| Synth.NoSamples | paris_player_exporter.py:71-97 | The sample total is 0 exactly when no row has a positive `seg_len`. |
| Synth.TotalAppend | paris_player_exporter.py:71-97 | The sample total is additive over concatenated schedules. |
| Synth.SampleAt | paris_player_exporter.py:69-97 | Local sample `n` of row `i` sits at buffer position `TotalSamples(rows[..i]) + n`. It is zero for a silence row. For a tone row it is the tone sample whose oscillator index is that same absolute position, counting earlier silence. |
| Synth.SamplesRange | paris_player_exporter.py:90-96 | Every sample of the buffer, tone or silence, lies in [-32767, 32767]. |
| Synth.SilenceBytes | paris_player_exporter.py:94-97 | A row whose value is not 1 packs to exactly `seg_len` pairs of zero bytes. |
| Synth.SynthesizePcm16 | paris_player_exporter.py:58-99 | The loops produce exactly the packed `Samples` of the rows under the clamped parameters. The returned `t` is the total sample count, and the byte length is `2 * t`. |
| Synth.ExampleSchedule | paris_player_exporter.py:71-97 | The schedule `100,1` then `50,0` at 8000 Hz gives 800 + 400 = 1200 samples. Sample `k` of the first 800 is the tone sample with envelope and oscillator index `k`, and the last 400 are zero. |

## Left out

- The GUI class `App` is not modelled. This includes its dialogs, message boxes, logging, and the parameter form `read_params` with its `float()` conversions and UI range checks. It is user interface, not engine logic.
- `PlayerThread`, `_wait_end`, `on_play` and `on_stop` are not modelled. They are threads, platform detection and external player processes.
- `write_wav` is not modelled. It is a wrapper over Python's `wave` module, which is not part of this model.
- MP3 export through pydub/ffmpeg and `which` are not modelled. They are a foreign library and a `PATH` lookup.
- `Schedule.ParseParis`: the file open and UTF-8 decoding are not modelled. The parser takes the sequence of lines the file iterator would yield, so a decoding error is not modelled.
- `Synth.Trig`: `math.sin`, `math.cos` and `math.pi` are uninterpreted function fields. Nothing is claimed about sine accuracy. The bounds of the envelope and the oscillator (`Synth.EnvelopeGain`, `Synth.Oscillator`) are stated only under the hypothesis that `cos` and `sin` stay within [-1, 1].
- `Synth.SegLen`: `round(samplerate * (dur_ms / 1000.0))` is computed on the exact rational `samplerate * dur_ms / 1000`, rounding half to even. The float computation rounds twice, once in the division and once in the product, so near a tie it can fall on the other side. Above 2^53 milliseconds `dur_ms / 1000.0` is inexact by far more than that, and from 2^1024 it raises `OverflowError`; the model has neither.
- `Synth.SegLen`: `b'\x00\x00' * seg_len` raises `OverflowError` (or `MemoryError`) once `seg_len` exceeds `sys.maxsize`. The model's `Pcm16.ZeroBytes` and the sample buffer have no size limit.
- `Synth.ClampParams`: the model's parameters are an integer sample rate and real numbers. The source's `int(...)` on a float sample rate, applied after clamping, truncates it; the model assumes the caller already passes an integer. A NaN parameter, which the form could pass through, is clamped by `min(hi, nan)` to the upper bound `hi`; reals have no NaN, so this is not modelled.
- `Synth.RampSamples`: `int(samplerate * (ramp_ms / 1000.0))` is taken as the floor of the exact real product, not the float product.
- `Pcm16.Quantise`: the envelope, oscillator and ×32767 products use exact real arithmetic, not IEEE doubles.
- `Text.ParseInt` models `int()` on a stripped field as an optional `+` or `-` followed by ASCII digits, with single underscores allowed between two digits. Non-ASCII decimal digits, which Python also accepts, are not modelled.
- `Text.ParseInt` has no length limit. CPython 3.11 and later, and the 3.10.7, 3.9.14 and 3.8.14 releases, refuse `int()` on more than 4300 digits by default. On those versions the line of 4301 `1`s followed by `,1` is skipped, where the model yields a row.
- `Text.Lower` lower-cases ASCII letters only. For the header test this gives the same answer as Python. Apart from U+0130, no non-ASCII character lower-cases to an ASCII letter of `duration_ms`. U+0130 lower-cases to `i` followed by a combining dot, which then breaks the prefix.
- `Text.IsSpace` is the set of characters Python's `str.isspace()` accepts, listed explicitly. `str.strip()` removes exactly these.
