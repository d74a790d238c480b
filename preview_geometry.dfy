/**
 * Integer geometry of the workspace preview strip: the size of the
 * application icons drawn under each preview, the extra list spacing those
 * icons need when they overflow below a preview, and the height chosen for
 * each preview so that every workspace fits in the available height.
 */
module PreviewGeometry {
  import opened Wrappers

  const PREVIEW_HEIGHT: int := 120
  const NAME_HEIGHT: int := 30
  const DEFAULT_APP_ICON_SIZE: int := 48
  const MIN_PREVIEW_HEIGHT: int := 24
  /** Border of one preview item, top and bottom together. */
  const ITEM_CHROME: int := 4
  /** Icon button padding and focus border around an icon, both sides together. */
  const ICON_CHROME: int := 6

  /** A work area as reported by the layout manager. */
  datatype WorkArea = WorkArea(x: int, y: int, width: int, height: int)

  /**
   * Icon size of the preview's application icons: the configured size
   * (48 when the setting cannot be read) clamped to [16, 96].
   */
  function PreviewAppIconSize(setting: Option<int>): (r: int)
    ensures 16 <= r <= 96
    ensures setting.None? ==> r == DEFAULT_APP_ICON_SIZE
    ensures setting.Some? && 16 <= setting.value <= 96 ==> r == setting.value
    ensures setting.Some? && setting.value < 16 ==> r == 16
    ensures setting.Some? && setting.value > 96 ==> r == 96
  {
    var size := setting.GetOr(DEFAULT_APP_ICON_SIZE);
    if size < 16 then 16 else if size > 96 then 96 else size
  }

  /**
   * Height by which the icon row overflows below a preview when names are
   * not placed below it: half of the icon plus its chrome, rounded up; no
   * overflow when names are placed below.
   */
  function IconOverflowPx(namePosition: string, iconSize: int): (r: int)
    requires 16 <= iconSize <= 96
    ensures namePosition == "BELOW" ==> r == 0
    ensures namePosition != "BELOW" ==>
      2 * r >= iconSize + ICON_CHROME && 2 * r <= iconSize + ICON_CHROME + 1
  {
    if namePosition == "BELOW" then 0 else (iconSize + ICON_CHROME + 1) / 2
  }

  lemma {:induction false} IconOverflowBounds(namePosition: string, setting: Option<int>)
    ensures var pad := IconOverflowPx(namePosition, PreviewAppIconSize(setting));
      namePosition != "BELOW" ==> 11 <= pad <= 51
  {
    var size := PreviewAppIconSize(setting);
    var pad := IconOverflowPx(namePosition, size);
    if namePosition != "BELOW" {
      assert 2 * pad >= 22 && 2 * pad <= 103;
    }
  }

  /** Spacing of the preview list and its bottom padding, as applied to the list. */
  datatype ListSpacing = ListSpacing(spacing: int, paddingBottom: int)

  /** The list spacing and name position settings, read together. */
  datatype SpacingSettings = SpacingSettings(baseSpacing: int, namePosition: string)

  /** The name position used when the settings cannot be read. */
  const FALLBACK_NAME_POSITION := "BOTTOM_RIGHT"

  /**
   * The list spacing update: nothing is applied when the list has no layout
   * manager; otherwise the spacing is the configured spacing plus the icon
   * overflow, and the bottom padding is the icon overflow alone. The two
   * settings are read together: when either read fails both fall back, to
   * spacing 0 and the bottom-right name position.
   */
  function ListSpacingForIconSize(hasLayout: bool, settings: Option<SpacingSettings>,
                                  iconSetting: Option<int>): (r: Option<ListSpacing>)
    ensures r.Some? <==> hasLayout
    ensures r.Some? && settings.Some? ==>
      && r.value.spacing == settings.value.baseSpacing + r.value.paddingBottom
      && r.value.paddingBottom == IconOverflowPx(settings.value.namePosition, PreviewAppIconSize(iconSetting))
    ensures r.Some? && settings.None? ==>
      r.value.spacing == r.value.paddingBottom == IconOverflowPx(FALLBACK_NAME_POSITION, PreviewAppIconSize(iconSetting))
  {
    if !hasLayout then None
    else
      var read := settings.GetOr(SpacingSettings(0, FALLBACK_NAME_POSITION));
      var extra := IconOverflowPx(read.namePosition, PreviewAppIconSize(iconSetting));
      Some(ListSpacing(read.baseSpacing + extra, extra))
  }

  /**
   * The ideal preview height: the preview width scaled by the work area's
   * aspect ratio and rounded half up (JavaScript's Math.round), or 120 when
   * no usable work area is known.
   */
  function IdealHeight(previewWidth: int, wa: Option<WorkArea>): (r: int)
    ensures wa.Some? && wa.value.width > 0 && wa.value.height > 0 ==>
      var w, h := wa.value.width, wa.value.height;
      2 * w * r <= 2 * previewWidth * h + w < 2 * w * (r + 1)
    ensures !(wa.Some? && wa.value.width > 0 && wa.value.height > 0) ==> r == PREVIEW_HEIGHT
  {
    if wa.Some? && wa.value.width > 0 && wa.value.height > 0 then
      var w, h := wa.value.width, wa.value.height;
      var r := (2 * previewWidth * h + w) / (2 * w);
      DivBounds(2 * previewWidth * h + w, 2 * w);
      r
    else PREVIEW_HEIGHT
  }

  lemma DivBounds(a: int, d: int)
    requires d > 0
    ensures d * (a / d) <= a < d * (a / d + 1)
  {
  }

  /** Height taken by everything except the previews themselves. */
  function FixedOverhead(n: int, spacing: int, belowExtra: int, pad: int): int
  {
    (n - 1) * spacing + n * (belowExtra + ITEM_CHROME) + pad
  }

  /** True when the shrink branch is taken rather than the ideal height. */
  predicate ShrinkNeeded(ideal: int, avail: int, n: int, fixed: int)
  {
    avail != 0 && avail >= MIN_PREVIEW_HEIGHT * n && n * ideal + fixed > avail
  }

  /**
   * The fit-or-shrink rule on already computed quantities: keep the ideal
   * height (never below the floor of 24) when the available height is not
   * known yet or everything fits; otherwise shrink every preview uniformly
   * to the largest height that fits, still never below 24.
   */
  function FitHeight(ideal: int, avail: int, n: int, fixed: int): (r: int)
    requires n >= 1
    ensures r >= MIN_PREVIEW_HEIGHT
    ensures r <= if ideal > MIN_PREVIEW_HEIGHT then ideal else MIN_PREVIEW_HEIGHT
    ensures !ShrinkNeeded(ideal, avail, n, fixed) ==>
      r == if ideal > MIN_PREVIEW_HEIGHT then ideal else MIN_PREVIEW_HEIGHT
    ensures ShrinkNeeded(ideal, avail, n, fixed) && r > MIN_PREVIEW_HEIGHT ==>
      n * r + fixed <= avail < n * (r + 1) + fixed
  {
    if avail == 0 || avail < MIN_PREVIEW_HEIGHT * n then Max(MIN_PREVIEW_HEIGHT, ideal)
    else
      var needTotal := n * ideal + fixed;
      if needTotal <= avail then Max(MIN_PREVIEW_HEIGHT, ideal)
      else
        var per := (avail - fixed) / n;
        DivBounds(avail - fixed, n);
        ShrinkBelowIdeal(ideal, avail, n, fixed, per);
        Max(MIN_PREVIEW_HEIGHT, Min(ideal, per))
  }

  lemma ShrinkBelowIdeal(ideal: int, avail: int, n: int, fixed: int, per: int)
    requires n >= 1 && n * ideal + fixed > avail
    requires n * per <= avail - fixed
    ensures per < ideal
  {
    MulCancel(n, per, ideal);
  }

  lemma MulCancel(n: int, a: int, b: int)
    requires n >= 1 && n * a < n * b
    ensures a < b
  {
  }

  function Max(a: int, b: int): int { if a >= b then a else b }
  function Min(a: int, b: int): int { if a <= b then a else b }

  /**
   * The preview height for `workspaceCount` workspaces: the ideal height from
   * the work area, fitted into `avail` together with the list spacing, the
   * per-item chrome, the name labels placed below and the icon overflow
   * padding at the bottom of the list. A count below one is treated as one,
   * and a list spacing that cannot be read counts as 0.
   */
  function ComputePreviewHeight(previewWidth: int, wa: Option<WorkArea>, avail: int,
                                workspaceCount: int, namePosition: string, spacing: Option<int>,
                                iconSetting: Option<int>): (r: int)
    ensures MIN_PREVIEW_HEIGHT <= r <= Max(MIN_PREVIEW_HEIGHT, IdealHeight(previewWidth, wa))
  {
    var ideal := IdealHeight(previewWidth, wa);
    var n := Max(1, workspaceCount);
    var belowExtra := if namePosition == "BELOW" then NAME_HEIGHT + 4 else 0;
    var pad := IconOverflowPx(namePosition, PreviewAppIconSize(iconSetting));
    FitHeight(ideal, avail, n, FixedOverhead(n, spacing.GetOr(0), belowExtra, pad))
  }

  /**
   * The height never exceeds the ideal height (or the floor when the ideal is
   * smaller), and it is exactly that when the available height is unknown,
   * too small to give every workspace the floor, or large enough for all.
   */
  lemma {:induction false} PreviewHeightBounds(previewWidth: int, wa: Option<WorkArea>, avail: int,
                                               workspaceCount: int, namePosition: string,
                                               spacing: Option<int>, iconSetting: Option<int>)
    ensures var ideal := IdealHeight(previewWidth, wa);
      var n := Max(1, workspaceCount);
      var r := ComputePreviewHeight(previewWidth, wa, avail, workspaceCount, namePosition,
                                    spacing, iconSetting);
      && MIN_PREVIEW_HEIGHT <= r <= Max(MIN_PREVIEW_HEIGHT, ideal)
      && (avail == 0 || avail < MIN_PREVIEW_HEIGHT * n ==> r == Max(MIN_PREVIEW_HEIGHT, ideal))
  {
  }

  /**
   * In the shrink branch the result is floor((avail - fixed) / n), never
   * below 24: the largest uniform height with which every preview fits.
   */
  lemma {:induction false} ShrinkIsFloorDivision(ideal: int, avail: int, n: int, fixed: int)
    requires n >= 1 && ShrinkNeeded(ideal, avail, n, fixed)
    ensures FitHeight(ideal, avail, n, fixed) == Max(MIN_PREVIEW_HEIGHT, (avail - fixed) / n)
  {
    var per := (avail - fixed) / n;
    DivBounds(avail - fixed, n);
    ShrinkBelowIdeal(ideal, avail, n, fixed, per);
  }

  /** The worked example: 10 workspaces, ideal 120, spacing 4, overflow pad 20, 1000 px. */
  lemma ShrinkExample()
    ensures FixedOverhead(10, 4, 0, 20) == 96
    ensures FitHeight(120, 1000, 10, 96) == 90
  {
    ShrinkIsFloorDivision(120, 1000, 10, 96);
  }
}
