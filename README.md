# ASCII frame player: a Dafny model of the conversion pipeline

The player turns a fixed sequence of still images into ASCII-art text frames.
Then it shows them in a terminal one after another, forever. This project models
the conversion of one image and the frame-index step of the playback loop:

- **Sampling** (`Luminance.GetPixelMatrix`): the image's column-major pixel
  accessor `pixels(x, y)` is read into a row-major `height × width` matrix of
  RGB triples.
- **Luminance** (`Luminance.Intensity`, `Luminance.GetIntensityMatrix`): each
  pixel becomes the truncated mean of its three channels.
- **Glyph mapping** (`Glyphs.GlyphIndex`, `Glyphs.ConvertToChar`,
  `Glyphs.GetCharMatrix`): an intensity in `[0, 255]` is scaled to a position
  in the 65-glyph density gradient `INTENSITY_SCALE`, and the glyph there is
  chosen.
- **Frame assembly** (`Frames.AssembleFrame`, specified by `Frames.Frame`): each
  glyph is repeated `STRETCH = 3` times, and each row ends with a line break.
  `Frames.GetAsciiFrame` chains all four stages, and `Frames.AsciiFrame` is its
  specification.
- **Playback** (`Playback.NextFrameNo`, class `Playback.Player`): the player
  loads `N_FRAMES = 90` frames. It then shows them in order and wraps to frame 0
  after frame 89.

Python's float expressions are modelled by exact integer equivalents:

- `int((R+G+B)/3)` is `(R+G+B) / 3` for sums in `[0, 765]`.
- `int(b/255*64)` is `(b*64) / 255` for `b` in `[0, 255]`. Multiplying by 64
  is exact, and `64b/255` is an integer only at `b = 0` and `b = 255`.

The image loader is not part of the model. The image's size and its pixel
accessor are inputs (`Playback.Image`). Channels are the subset type
`Config.Channel`, which is `[0, 255]`, the range of an RGB image.

The gradient literal at main.py:10 holds 65 glyphs, because `\"` and `\\` are one
glyph each. So `len(INTENSITY_SCALE) - 1 = 64`, and full intensity selects
index 64, the `$`. In the model the literal is written as five
13-glyph pieces joined by `+`. This is the same string, in a form the verifier
can index.

## Model

| member | source | states |
|---|---|---|
| Luminance.GetPixelMatrix | main.py:13-27 | returns exactly `height` rows of `width` entries each, and entry `[y][x]` is `pixels(x, y)` |
| Luminance.Intensity | main.py:40-41 | the intensity is the floor of the channel mean (`3v <= R+G+B < 3v+3`), lies in `[0, MAX_INTENSITY]`, and lies between the smallest and the largest channel |
| Luminance.IntensityGreyAndMonotone | main.py:41 | raising any channel never lowers the intensity, and a grey pixel keeps its channel value |
| Luminance.IntensityExamples | main.py:41 | white gives 255, black gives 0, (10, 20, 30) gives 20 |
| Luminance.GetIntensityMatrix | main.py:30-45 | same row count and row lengths as the pixel matrix; each cell is the intensity of the pixel at the same position, within `[0, 255]` |
| Glyphs.GlyphIndex | main.py:66 | for an intensity in `[0, 255]` the index is a valid gradient position, and it is the floor of `b * 64 / 255` |
| Glyphs.GlyphIndexMonotone | main.py:66 | a higher intensity never selects an earlier (sparser) glyph |
| Glyphs.GlyphIndexEnds | main.py:66 | index 0 exactly for intensities 0 to 3; the last index exactly for intensity 255 |
| Glyphs.LeastIntensityFor | main.py:66 | every glyph of the gradient is selected by some intensity in `[0, 255]`; the returned one is the least, since all lower intensities select earlier glyphs |
| Glyphs.ConvertToChar | main.py:62-67 | the glyph shown for intensity `b` is the gradient glyph at a position `k` with `k·255 <= 64b < (k+1)·255`, that is, the truncation of `b/255·64`; it is never a line break; intensities 0 to 3 show the backtick and 255 shows `$` |
| Glyphs.GetCharMatrix | main.py:48-59 | same shape as the intensity matrix; each cell is the glyph of the intensity at the same position |
| Frames.StretchRow | main.py:96 | a row of `W` glyphs becomes `3W` characters, and character `k` is glyph `k / 3` |
| Frames.LineAt | main.py:96-97 | a printed line has `3W + 1` characters; character `k < 3W` is glyph `k / 3` of the row and character `3W` is the line break |
| Frames.Frame | main.py:92-97 | the reference definition of the frame text, whose layout `FrameLayout` and `FrameLineBreaks` state; its own contract: at least one character per row, and a frame with rows ends with a line break |
| Frames.LineStartProduct | main.py:92-97 | with lines of equal length `len`, line `i` starts at `i * len` |
| Frames.OffsetValue | main.py:92-97 | column `k` of line `i` of a frame of width `W` is at `i * (3W + 1) + k` |
| Frames.FrameLength | main.py:92-97 | a frame whose lines all have length `len` has length `LineStart(len, H)` |
| Frames.FrameAt | main.py:92-97 | line `i` of a frame holds row `i` stretched, then a line break, starting where line `i` starts |
| Frames.FrameCharAt | main.py:92-97 | character `k < 3W` of line `i` of a frame of width `W` is `m[i][k/3]`, and character `3W` is a line break |
| Frames.FrameLayout | main.py:92-97 | an `H × W` character matrix gives a frame of length `H·(3W+1)`; character `k < 3W` of line `i` is `m[i][k/3]`, and character `3W` of each line is a line break |
| Frames.FrameLineBreaks | main.py:92-97 | when no glyph is a line break, the frame holds exactly `H` line breaks, so it has `H` lines |
| Frames.AssembleFrame | main.py:92-99 | the text accumulated row by row equals the specified frame `Frame(charMatrix)` |
| Frames.AsciiFrame | main.py:70-99 | the frame of an `H × W` image has length `H·(3W+1)` |
| Frames.AsciiFrameLayout | main.py:70-99 | in the frame of an `H × W` image, character `k` of line `y` is the glyph of the intensity of pixel `(k/3, y)`; each line ends with a line break, and there are exactly `H` line breaks |
| Frames.GetAsciiFrame | main.py:83-99 | running sampling, luminance, glyph mapping and assembly in order gives `AsciiFrame` of the image |
| Playback.NextFrameNo | main.py:124 | from an index in `[0, N_FRAMES-1]` the next index stays in range and equals `(frameNo + 1) mod N_FRAMES`; it is 0 exactly after the last frame |
| Playback.FrameNoAfter | main.py:115-124 | starting from a frame in range, the index after any number of advances stays in `[0, N_FRAMES-1]` |
| Playback.FrameNoAfterCycles | main.py:115-124 | after `s` advances from `start` the index is `(start + s) mod N_FRAMES` |
| Playback.FrameNoAfterCyclesUpTo | main.py:115-124 | for every step count `u` up to `steps`, the index after `u` advances is `(start + u) mod N_FRAMES` |
| Playback.Player.Load | main.py:106-111 | the loading phase stores `N_FRAMES` frames; frame `i` is `AsciiFrame` of image `i`, and playback starts at frame 0 |
| Playback.Player.Advance | main.py:124 | the index stays in range, becomes `(old + 1) mod N_FRAMES`, and 0 after the last frame |
| Playback.Player.Play | main.py:115-124 | the first `steps` rounds of the loop show, in round `t`, the frame reached after `t` advances (`FrameNoAfter(start, t)`), which is frame `(start + t) mod N_FRAMES`; they leave the index at `FrameNoAfter(start, steps)`, which is `(start + steps) mod N_FRAMES` |

`Playback.Player.Current` (the lookup `frames[frame_no]` at main.py:118) is a
helper of `Playback.Player.Play`, whose row states what it shows.

## Left out

- Image loading and downsizing (`Image.open`, `img.thumbnail((1000, FRAME_HEIGHT))`, `img.size`, `img.load()`, main.py:75-80 and main.py:21) belong to the imaging library, whose behaviour is not visible here. The image's size and pixel accessor are inputs, so `FRAME_HEIGHT` does not appear. A missing or unreadable image, which aborts loading, is not modelled.
- Pixel modes other than RGB (RGBA, greyscale) are excluded by the `Rgb` triple type. In the source, the unpacking at main.py:40 would fail on them.
- Glyphs.ConvertToChar: intensities outside `[0, 255]` are excluded by its precondition. The pipeline never produces them. In the source, `int` truncates toward zero, so −1 to −3 give index 0 (the backtick); −4 to −262 give indices −1 to −65, which select glyphs counted from the end of the gradient; −263 and below raise an index error. Above the range, 256 to 258 still give `$`, and 259 and above raise an index error.
- Terminal and timing I/O: the `print('Loading frames...')` message (main.py:107), clearing the screen, `print` and `time.sleep(SLEEP_TIME)` (main.py:114-121). `Player.Play` returns the frames it would print instead of printing them.
- The endless `while True` loop (main.py:116) is modelled by its first `steps` rounds (`Player.Play`) and by `FrameNoAfterCycles`.
- File-name construction (`f"images/{frame_name}"`, `f"rick-roll-{i}.jpg"`, main.py:75 and main.py:110) is path plumbing for the loader. `Player.Load` takes the decoded images as a function of the frame number.
- Floating point in general: the two float expressions are replaced by their exact integer equivalents, as described above.
