# Interactive widgets of the EYP application page

The application page (`src/App.jsx`) is static copy plus three small
interactive widgets and a lettered badge on each question card:

- **SwipeGallery**: an index into a fixed list of images. It starts at 0, and
  each tap sets it to `(index + 1) % images.length`. A badge reads
  `{index + 1} / {images.length}`.
- **RevealList**: a pointer `revealedIndex` into a ranked list of labels. It
  starts at -1, and each tap moves it forward by one while an item is still
  hidden. Row `idx` shows its label and a check mark iff `idx <= revealedIndex`,
  and shows `???` otherwise. The row at the pointer is highlighted.
- **VideoPlayer**: a flag `isPlaying`. It starts false, and a click sets it to
  true. The thumbnail and play button are shown while it is false, the embed
  once it is true.
- **QuestionCard** badge: the character `String.fromCharCode(97 + index)`.

Each widget is a Dafny class. The class has the source's one state field, a
constructor that gives the initial state, and one method for the click handler.
Each class also has a ghost field `clicks`, the number of taps since the widget
was mounted. `Valid()` ties the real field to a pure function, "the state after
`clicks` taps". Lemmas about that function state the promised behaviour:

- The gallery index is `k mod n`.
- The revealed pointer is `min(k, n) - 1`.
- The player is playing iff `k > 0`.

The display rules are pure functions of the state. Module `Page` mounts the
instances the page itself uses and checks what a visitor sees after a given
number of taps.

Files: `gallery.dfy` (module `Gallery`), `reveal.dfy` (`Reveal`), `video.dfy`
(`Video`), `question.dfy` (`Question`), `page.dfy` (`Page`).

The code has no check for an empty image list: `(prev + 1) % 0` is NaN in
JavaScript. Here a non-empty list is a precondition of constructing a gallery,
and the unguarded behaviour is modelled separately (see "## Findings"). The
code keeps the index of the last revealed item, starting at -1, and the model
keeps that index.

Each click is one synchronous state transition. React's batching and re-render
scheduling are not modelled.

## Model

| member | source | states |
|---|---|---|
| Gallery.Next | src/App.jsx:78 | one tap moves the index one forward while it is not at the last image, wraps from n - 1 to 0, and always gives an index below n |
| Gallery.IndexAfter | src/App.jsx:76-78 | the index reached from the initial 0 by any number of taps is always a valid index into the list |
| Gallery.IndexAfterIsMod | src/App.jsx:76-78 | after k taps on a fresh gallery the index is k mod n |
| Gallery.Periodic | src/App.jsx:76-78 | the shown indices repeat with period n: n more taps bring the gallery back to the same image |
| Gallery.FirstRoundVisitsEach | src/App.jsx:76-78 | for k < n, k taps show image k, so the first round visits every image in order |
| Gallery.Counter | src/App.jsx:96 | the badge position is index + 1, a value in 1..n, and the total is the list length |
| Gallery.CounterDistinguishes | src/App.jsx:96 | two valid indices give the same badge iff they are equal |
| Gallery.SwipeGallery.constructor | src/App.jsx:75-76 | a gallery over a non-empty list starts at index 0 with no taps counted |
| Gallery.SwipeGallery.NextImage | src/App.jsx:78-81 | a tap advances the index by the updater, counts one more tap, and leaves the index equal to taps mod n |
| Gallery.SwipeGallery.CurrentImage | src/App.jsx:86 | the image source shown is an element of the list: after k taps, image k mod n |
| Gallery.SwipeGallery.Badge | src/App.jsx:96 | after k taps the badge reads (k mod n) + 1 out of n |
| Gallery.NextAsWritten | src/App.jsx:78 | the unguarded updater yields NaN exactly when the old index is NaN or the list is empty, and otherwise the value of the guarded updater `Next` for that index |
| Gallery.IndexAfterAsWritten | src/App.jsx:76-78 | the unguarded index after any number of taps is NaN only on an empty list, and on a non-empty list it is a number below the length |
| Gallery.EmptyGalleryIndexBecomesNaN | src/App.jsx:76-78 | on an empty list every count of one or more taps leaves the index NaN |
| Gallery.AsWrittenAgreesWhenNonEmpty | src/App.jsx:76-78 | on a non-empty list the unguarded updater gives exactly the modelled index after any number of taps |
| Reveal.Step | src/App.jsx:106-110 | a tap moves the pointer forward by at most one, it moves iff the pointer is below length - 1, and it never passes length - 1 |
| Reveal.RevealedAfter | src/App.jsx:104-110 | from the initial -1 the pointer always stays within -1..length - 1 |
| Reveal.RevealedAfterIsMin | src/App.jsx:104-110 | after k taps the pointer is min(k, n) - 1 |
| Reveal.RevealedMonotone | src/App.jsx:104-110 | more taps never move the pointer back |
| Reveal.SaturatedIsFixed | src/App.jsx:106-110 | once the last item is revealed a further tap leaves the pointer unchanged, and that state needs at least n taps |
| Reveal.ItemAt | src/App.jsx:116-137 | one row: rank idx + 1; revealed and checked iff idx <= pointer; its label if revealed, else "???"; highlighted iff idx is the pointer, so only a revealed row is |
| Reveal.Render | src/App.jsx:115-136 | one row per item: rank idx + 1; revealed and checked iff idx <= pointer; label if revealed else "???"; highlighted iff idx is the pointer |
| Reveal.RevealedArePrefix | src/App.jsx:115-136 | in every reachable state the revealed rows form a prefix of the list, of length pointer + 1 |
| Reveal.HighlightIsLastRevealed | src/App.jsx:120-128 | a row is highlighted iff it is the last revealed one, and some row is highlighted iff something is revealed |
| Reveal.RevealNextShowsOneMore | src/App.jsx:106-136 | an effective tap reveals exactly one more row, the next one, now showing its label, leaves every other row's revealed state and text as they were, and moves the highlight to the newly revealed row; at the end a tap changes no row |
| Reveal.RevealList.constructor | src/App.jsx:103-104 | a fresh list reveals nothing: the pointer is -1 |
| Reveal.RevealList.RevealNext | src/App.jsx:106-110 | a tap applies the guarded step, counts one more tap, and leaves the pointer at min(taps, n) - 1 |
| Reveal.RevealList.Views | src/App.jsx:115-138 | after k taps exactly the first min(k, n) rows are revealed and show their labels; every other row shows "???"; the row highlighted is the min(k, n)-th |
| Video.Click | src/App.jsx:38 | the click updater yields playing whatever the old state |
| Video.ScreenFor | src/App.jsx:39-69 | the embed is selected iff playing, the thumbnail iff not |
| Video.PlayingAfter | src/App.jsx:24-38 | from the initial not-playing state, the player is playing after k clicks iff k > 0 |
| Video.PlayingIffClicked | src/App.jsx:24-69 | the player shows the embed exactly when it has been clicked at least once, the thumbnail before |
| Video.NeverStops | src/App.jsx:24-38 | once playing it stays playing under further clicks, and clicking twice is the same as clicking once, whatever the state |
| Video.VideoPlayer.constructor | src/App.jsx:23-24 | a fresh player is not playing |
| Video.VideoPlayer.OnClick | src/App.jsx:38 | a click applies the updater, counts one more click, and leaves the player playing |
| Video.VideoPlayer.View | src/App.jsx:39-69 | the embed is shown iff the player has been clicked |
| Question.LabelCode | src/App.jsx:155 | the badge is one UTF-16 code unit, equal to 97 + index for indices below 2^16 - 97 |
| Question.PageLabels | src/App.jsx:155 | the six questions, indices 0..5, get the badges 'a'..'f' |
| Question.LowerCaseLetters | src/App.jsx:155 | indices 0..25 get the lower-case letters, index i the i-th letter after 'a' |
| Question.LabelsDistinct | src/App.jsx:155 | within one span of 2^16 indices, distinct indices give distinct badges; indices 2^16 apart give the same one |
| Page.PortfolioGallery | src/App.jsx:279-285 | the page's five-image gallery tapped seven times shows the third image with badge 3 / 5 |
| Page.RankingList | src/App.jsx:296-300 | the page's three-label ranking shows two labels, the second highlighted, after two taps, and all three after five taps |
| Page.VideoResponse | src/App.jsx:223 | the page's player shows the thumbnail before any click and the embed after two clicks |

## Left out

- The scroll progress bar (`useScroll` and `scrollYProgress`): it is a
  floating-point value computed by the animation library from browser scroll
  metrics.
- All animation properties (opacity, offsets, scale factors, durations and
  delays): they are presentation and floating point. The `scale` test
  `idx === revealedIndex` is still modelled, as the `highlighted` flag of a row.
- The `if (true == false)` placeholder branch of the video player: it can never
  be taken. The `videoId` prop is ignored by the code, which embeds a fixed URL.
- The iframe, image loading and asset paths: the browser loads them. Image
  sources are opaque strings.
- SVG decorations, static copy, layout, contact details and the `App`
  composition. Only the widget instances the page mounts are modelled, in `Page`.
- `tailwind.config.js`: styling configuration with no behaviour.
- Number width: JavaScript numbers are doubles, and the model uses unbounded
  integers. No count of taps a person can make gets near 2^53.
- Gallery.Counter: the badge is modelled as the pair (position, total). Its
  decimal text and the " • Tap to swipe" suffix are not modelled.
- Question.LabelCode: the badge is modelled as its code number. A lone UTF-16
  surrogate is not a Dafny `char`, so the conversion to a one-character string
  is stated only for the letters.

## Findings

| source | as written | input that shows it | evidently intended | confidence | as-written member | corrected member |
|---|---|---|---|---|---|---|
| src/App.jsx:78 | `(prev + 1) % images.length` with no check for an empty list | `images = []` and one tap: the index becomes NaN and stays NaN | the gallery only ever holds a valid index; an empty list is refused when the gallery is created | low (the page only passes a five-image list); not executed | Gallery.IndexAfterAsWritten, Gallery.EmptyGalleryIndexBecomesNaN | Gallery.SwipeGallery.constructor |
