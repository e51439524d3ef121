# nonsense-sentiment-scraper, modelled in Dafny

The system crawls a university web site and extracts the paragraph text of every page it visits. It then clusters the pages by their TF-IDF vectors and gives every cluster an average AFINN sentiment score. This project models the logic each of those stages adds around its libraries:

- **Crawl gate.** `ModifiedSpider` and `GinaCodySpider` record visited URLs until a crawl limit is reached. They skip pages whose robots meta tag says `noindex` or `nofollow`, and raise `CloseSpider` at the limit.
- **Text extraction.** `TextExtractor` cleans each paragraph: strip the whitespace, turn newlines and tabs into spaces, collapse every run of non-ASCII characters into one space, and cut the text at the first `https://`. It then assembles each page as the title, a space, and the cleaned paragraphs joined by spaces.
- **Cluster post-processing.** `TextClusterer` labels documents by position from the k-means label array. It ranks every centroid's term weights in descending order and keeps the top k terms per cluster (k = 20 for the stats file, 10 by default).
- **Sentiment.** `SentimentAnalyzer` attaches a score to every document. It sums and counts the scores per `cluster_<n>` key, divides, attaches the cluster's descriptor terms, and sorts the report by key.
- **Entry point.** `main` dispatches on the first argument. The sentiment stage selects the `labeled_text*.json` files, processes them in sorted order, and reads the cluster count from the first run of digits in each name.

Python dicts are insertion-ordered association lists (`Dicts.Dict`). Python exceptions are the `Err` arm of `Common.Result`. Strings compare in code-point order, as Python's `sorted` does.

The models of the libraries work as follows:

- The AFINN lexicon is an uninterpreted `score` function.
- Scikit-learn's outputs enter as parameters: the k-means label array and the centroid matrix in term space.
- A fetched page is its title and its paragraph texts.
- A Scrapy response is its URL and the content of its robots meta tag.

Files:

| file | module | models |
|---|---|---|
| common.dfy | `Common` | `Option`, `Result`, the exceptions raised |
| strings.dfy | `Strings` | substring search, `join`, decimal conversion, string order |
| dicts.dfy | `Dicts` | insertion-ordered dicts |
| sorting.dfy | `Sorting` | stable sort by a string key (`sorted`) |
| documents.dfy | `Documents` | labelled documents and the `cluster_<n>` keys |
| clustering.dfy | `Clustering` | src/clustering/clustering.py |
| sentiment.dfy | `Sentiment` | src/sentiment/sentiment_analysis.py |
| extractor.dfy | `Extractor` | src/scraper/extractor.py |
| spider.dfy | `Spider` | src/scraper/spider.py |
| gcspider.dfy | `GcSpider` | src/scraper/gc_spider.py |
| cli.dfy | `Cli` | src/main.py |

## Model

| member | source | states |
|---|---|---|
| Sentiment.ScoresPerDoc | src/sentiment/sentiment_analysis.py:28-40 | every document gains the score of its own raw text; dropping the score again gives back the input dict, with its keys, order, labels and texts |
| Sentiment.TalliesCorrect | src/sentiment/sentiment_analysis.py:60-68 | after the first loop each label that occurs has exactly one `cluster_<label>` entry, and no other key exists; the entry holds the sum and the number of that label's scores |
| Sentiment.TalliesCounted | src/sentiment/sentiment_analysis.py:63-68 | every entry of the first loop has counted at least one document, so the division of line 75 never divides by zero |
| Sentiment.Summaries | src/sentiment/sentiment_analysis.py:72-78 | the second loop: in key order, total divided by count, the count kept, the key's descriptor terms attached; fails exactly when some key has no descriptor terms, and then with the KeyError of the first such key in iteration order |
| Sentiment.AverageScoresCorrect | src/sentiment/sentiment_analysis.py:42-80 | the report has one entry per label that occurs, with distinct keys in strictly ascending string order; each entry holds the mean and count of its label's scores and that label's descriptor terms |
| Sentiment.AverageScoresFailure | src/sentiment/sentiment_analysis.py:59-78 | the report fails exactly when some label that occurs has no descriptor terms, and then with the KeyError of the key of the first document, in iteration order, whose label has none (entries are created in the order labels first occur) |
| Sentiment.AverageScoresPerCluster | src/sentiment/sentiment_analysis.py:42-80 | a report that is built is sorted by key; a failure is the KeyError of a key without descriptor terms |
| Sentiment.CountsSumToDocuments | src/sentiment/sentiment_analysis.py:59-68 | the counts of the report add up to the number of documents |
| Sentiment.AverageWithinMemberScores | src/sentiment/sentiment_analysis.py:70-75 | when every label has descriptors, the report is built and each cluster's average lies between the scores of two documents of that cluster |
| Sentiment.AverageIsMean | src/sentiment/sentiment_analysis.py:73-75 | when every label has descriptors, the report is built and a cluster's average is the arithmetic mean of its documents' scores |
| Sentiment.TenSortsBeforeTwo | src/sentiment/sentiment_analysis.py:80 | keys sort as strings: `cluster_10` sorts before `cluster_2` |
| Sentiment.ReportListsTenBeforeTwo | src/sentiment/sentiment_analysis.py:80 | when every label has descriptors, a report holding clusters 2 and 10 lists cluster 10 first |
| Clustering.ClassifyDocuments | src/clustering/clustering.py:63-77 | the i-th document in iteration order gets the i-th label, and keys and raw texts are kept; IndexError exactly when there are fewer labels than documents |
| Clustering.RankDescending | src/clustering/clustering.py:130-139 | `argsort()[::-1]` of one centroid: a permutation of the term indices whose weights do not increase |
| Clustering.OrderedCentroids | src/clustering/clustering.py:130-139 | one such ranking per cluster centroid |
| Clustering.RankingHeadIsMaximal | src/clustering/clustering.py:139 | the first index of a ranking has the largest weight |
| Clustering.TopTerms | src/clustering/clustering.py:125-127 | the first k ranked terms, or all of them when k is past the end |
| Clustering.StatsJson | src/clustering/clustering.py:109-128 | one entry per cluster keyed `cluster_i` in cluster order, each holding min(k, vocabulary size) terms, the p-th being the p-th ranked term |
| Clustering.GenerateStats | src/clustering/clustering.py:57-61 | the stats use k = 20: `cluster_i` lists the first min(20, vocabulary size) terms of the i-th centroid's ranking |
| Clustering.StatsListMoreThanDefault | src/clustering/clustering.py:57-61 | with at least 20 terms, the stats list 20 terms per cluster, the default k lists 10, and those 10 are the first 10 of the stats list |
| Clustering.StatsKeys | src/clustering/clustering.py:124-125 | the stats keys are distinct and are exactly `cluster_0` to `cluster_{n-1}` |
| Clustering.TopTermsAreHeaviest | src/clustering/clustering.py:121-127 | a listed term outweighs every term left off the list, and the list runs heaviest first |
| Clustering.TopTermsDistinct | src/clustering/clustering.py:125-127 | with distinct vocabulary terms, no cluster lists a term twice |
| Clustering.FirstTermIsHeaviest | src/clustering/clustering.py:125-127 | a cluster's first listed term has the largest weight in its centroid |
| Extractor.CleanLinks | src/scraper/extractor.py:89-102 | the result is a prefix of the text that contains no `https://`; the whole text when it has none, otherwise the text up to the first occurrence |
| Extractor.CleanLinksIdempotent | src/scraper/extractor.py:89-102 | cleaning links twice is cleaning them once |
| Extractor.CleanLinksAppend | src/scraper/extractor.py:98-101 | a link-free text followed by a link is cut exactly at the link |
| Extractor.Strip | src/scraper/extractor.py:81 | `str.strip()`: a slice of the input with only whitespace around it, with no whitespace at either end |
| Extractor.StripIdempotent | src/scraper/extractor.py:81 | stripping twice is stripping once |
| Extractor.ReplaceChar | src/scraper/extractor.py:82-83 | same length; each `target` character becomes `replacement`, and every other character is kept |
| Extractor.CollapseNonAscii | src/scraper/extractor.py:84 | the result is all ASCII and no longer than the input |
| Extractor.CollapseAscii | src/scraper/extractor.py:84 | ASCII text is left unchanged |
| Extractor.CollapseRun | src/scraper/extractor.py:84 | a whole run of non-ASCII characters becomes one space |
| Extractor.CollapseConcat | src/scraper/extractor.py:84 | split next to an ASCII character, the two halves are collapsed independently |
| Extractor.CollapseKeeps | src/scraper/extractor.py:84 | the collapse emits only the space and characters of its input |
| Extractor.CleanParagraph | src/scraper/extractor.py:80-86 | a cleaned paragraph is ASCII and holds no newline and no tab |
| Extractor.CleanParagraphNoLinks | src/scraper/extractor.py:85 | a cleaned paragraph holds no `https://` |
| Extractor.CleanBody | src/scraper/extractor.py:69-87 | one string per paragraph: the k-th string is the k-th paragraph cleaned |
| Extractor.CleanBodyParagraphs | src/scraper/extractor.py:69-87 | the k-th string is the k-th paragraph cleaned, and each is plain ASCII on one line with no tab and no `https://` link |
| Extractor.PageText | src/scraper/extractor.py:49-54 | the page text is the title (or "" when there is none), a space, then the cleaned paragraphs joined by single spaces |
| Extractor.OneParagraph | src/scraper/extractor.py:49-54 | a page with one paragraph gives its title, a space and that paragraph cleaned |
| Extractor.PageTextAppend | src/scraper/extractor.py:52-54 | one more paragraph appends a space and that paragraph cleaned to the page text, and nothing else changes |
| Strings.JoinSnoc | src/scraper/extractor.py:53 | joining one more part appends the separator and that part |
| Extractor.PageBodyClean | src/scraper/extractor.py:52-87 | after the title and its space, the page text is ASCII with no newline and no tab |
| Extractor.EmptyPage | src/scraper/extractor.py:49-54 | a page without paragraphs gives its title and one space |
| Extractor.ExtractPages | src/scraper/extractor.py:43-56 | the output has distinct keys, exactly the given URLs in the order each is first listed, each mapped to the text of its page |
| Extractor.FirstOccurrences | src/scraper/extractor.py:44-55 | the reference key order: every listed URL once, nothing else |
| Spider.CheckRobotMetatag | src/scraper/spider.py:60-77 | a page is refused exactly when its robots content is a non-empty string containing `noindex` or `nofollow` |
| Spider.RobotsBlockExamples | src/scraper/spider.py:72-76 | either word refuses the page, wherever it stands in the content |
| Spider.RobotsAllowExamples | src/scraper/spider.py:72-77 | the test is case-sensitive; empty or missing content allows the page |
| Spider.ParseItem | src/scraper/spider.py:44-58 | CloseSpider("Crawl limit reached: <limit>") is raised exactly when the visited set has reached the limit, and the state is then unchanged; otherwise the URL is recorded exactly when the robots tag allows it, and nothing else changes |
| Spider.ParseItemWithinLimit | src/scraper/spider.py:53-55 | a step never takes the visited set past the limit |
| Spider.ParseItemRecords | src/scraper/spider.py:53-56 | under the limit, an allowed page adds its URL and nothing else |
| Spider.ParseItemSkips | src/scraper/spider.py:53-56 | under the limit, a refused page changes nothing |
| Spider.RevisitChangesNothing | src/scraper/spider.py:55 | a URL already visited leaves the state unchanged |
| Spider.InitialWithinLimit | src/scraper/spider.py:19-32 | a fresh spider (no start URLs, nothing visited) with a non-negative limit is within it, and closes on its first page exactly when the limit is zero |
| Spider.DefaultLimitRecords | src/scraper/spider.py:44-58 | with the default limit of 100, a fresh spider records its first page the robots tag allows, keeps the limit at 100 and does not close |
| Spider.SetStartUrls | src/scraper/spider.py:34-37 | the URL is appended to the start list, and the limit and visited set are kept |
| Spider.SetCrawlLimit | src/scraper/spider.py:39-42 | the limit is replaced, and the start list and visited set are kept |
| Spider.LimitGovernsClosing | src/scraper/spider.py:39-58 | after `set_crawl_limit(limit)`, the next step closes the spider exactly when the visited set holds `limit` URLs or more |
| Spider.Crawl | src/scraper/spider.py:44-58 | over a sequence of responses, the start list and limit are kept, visited URLs are never forgotten, and any exception is the limit's CloseSpider |
| Spider.CrawlWithinLimit | src/scraper/spider.py:53-58 | a crawl that starts within the limit ends within it |
| Spider.CrawlRecordsOnlyAllowed | src/scraper/spider.py:53-55 | every newly recorded URL came from a response whose robots tag allowed it |
| Spider.CrawlAtLimit | src/scraper/spider.py:57-58 | a crawl that starts at the limit records nothing and closes at once |
| GcSpider.Initial | src/scraper/gc_spider.py:18-21 | the spider starts from the one Gina Cody page with nothing visited |
| GcSpider.CheckRobotMetatag | src/scraper/gc_spider.py:53-69 | a page is refused exactly when its robots content is a non-empty string containing `noindex` or `nofollow` |
| GcSpider.ParseItem | src/scraper/gc_spider.py:37-51 | under the limit: an allowed URL is recorded, a refused page changes nothing; at the limit: CloseSpider with the limit in its message |
| GcSpider.CrawlStaysReachable | src/scraper/gc_spider.py:20-51 | the start list stays the fixed page and the visited set stays within the limit over any crawl |
| GcSpider.InitialReachable | src/scraper/gc_spider.py:18-35 | the initial spider with a non-negative limit satisfies that invariant |
| Cli.Dispatch | src/main.py:122-137 | a stage is chosen exactly when the first argument is one of the four flags, and it is the stage of that flag (`--cluster` with `int(N_CLUSTERS)`); otherwise the ValueError with the usage message, also when there is no argument |
| Cli.DispatchIgnoresRest | src/main.py:123-126 | only the first argument matters |
| Cli.DispatchFlag | src/main.py:125-133 | each stage's flag selects that stage |
| Cli.LabeledJsonList | src/main.py:84-88 | an output path is selected exactly when its name starts with `labeled_text` and ends with `.json` |
| Cli.LabeledJsonCount | src/main.py:84-88 | a selected name's path occurs once per listing of the name; an unselected name's path does not occur |
| Cli.LabeledJsonListAppend | src/main.py:84-88 | selecting from a listing split in two gives the two selections one after the other: paths keep the listing order |
| Cli.ProcessingOrder | src/main.py:101 | the selected paths are processed as a permutation of the selection, in ascending string order |
| Cli.FirstDigitRun | src/main.py:90-99 | `re.findall(r"\d+", name)[0]`: a name with a digit gives its first maximal digit run; a name without one raises IndexError |
| Cli.FirstRunUnique | src/main.py:99 | a name's first maximal digit run is unique |
| Cli.FirstDigitRunOf | src/main.py:99 | a digit-free prefix followed by a digit run gives that run |
| Cli.ClusterCountRoundTrip | src/main.py:76-77 | the file `cluster` writes for n clusters is selected, and reading the count back from its path gives the decimal form of n |
| Cli.NoCountInName | src/main.py:84-99 | `labeled_text.json` is selected, but reading its count raises IndexError |
| Cli.ClusterCounts | src/main.py:101-102 | the counts of the selected files in order; IndexError exactly when some path has no digit |
| Cli.SentimentCounts | src/main.py:81-102 | entry i is the first digit run of the i-th path in sorted order; reading the counts fails with IndexError exactly when some selected name's path has no digit |
| Cli.DefaultClusterFile | src/main.py:76-99 | with the default of 3 clusters, the file `cluster` writes is selected by `sentiment`, which reads the count "3" back from it |
| Documents.ClusterKeyRoundTrip | src/sentiment/sentiment_analysis.py:61-62 | the label can be read back from `cluster_<label>` |
| Documents.ClusterKeyInjective | src/sentiment/sentiment_analysis.py:62 | different labels give different keys |
| Documents.LabelOfKeyRoundTrip | src/sentiment/sentiment_analysis.py:61-62 | a key that parses as `cluster_<label>` is exactly the key of that label |
| Strings.NatToStringRoundTrip | src/clustering/clustering.py:125 | the decimal form of a number is canonical and reads back to that number |

## Left out

- Scikit-learn (TF-IDF, truncated SVD, normalisation, k-means, inverse projection) is not modelled. Its label array and term-space centroids are inputs.
- The AFINN lexicon is an uninterpreted `score` function.
- Scores and averages are exact reals, so the model has no floating-point rounding.
- File and directory I/O, JSON encoding and logging are left out. The descriptor map that `generate_average_afinn_scores_per_cluster` reads from `kmeans_<n>_clusters.json`, and the directory listing of the sentiment stage, are parameters.
- HTTP requests and BeautifulSoup parsing are left out. A fetched page is its optional title and its paragraph texts.
- Scrapy's scheduling, link-extraction rules, `robots.txt` handling and XPath lookup are left out. A response is its URL and the content of its first robots meta tag.
- The environment reads (`CLUSTERS`, `CRAWL_LIMIT`) and their `int(...)` conversions are left out. The values are parameters. The defaults, `Cli.DefaultClusters` (3) and `Spider.DefaultCrawlLimit` (100), are used by `Cli.DefaultClusterFile` and `Spider.DefaultLimitRecords`.
- The interactive prompts of `crawler` are left out.
- The spider's class-level attributes, shared by every instance, are modelled as one explicit `SpiderState` value passed from step to step.
- The Gina Cody spider reuses the general spider's definitions: the two classes' `parse_item` and `check_robot_metatag` are the same code.
- Clustering.RankDescending: for equal weights, the order of numpy's `argsort` reversed is not modelled. The contract promises only a permutation with non-increasing weights, which is all the callers rely on.
- Clustering.StatsJson: a negative k, which would slice from the end in numpy, is not modelled. k is a natural number.
- Cli.FirstDigitRun: matches the ASCII digits 0-9 only. Python's `\d` also matches other Unicode decimal digits.
- Cli.SentimentCounts: the stage processes each file (scoring, averaging, saving) before reading the next file's count (main.py:101-113), so a KeyError from an earlier file's averaging can stop it before a later digit-free name is read. That interleaving is not modelled: the counts are read as one pass.
- Extractor.Strip: the whitespace set is the code points Python's `str.isspace()` accepts, written out.
- No dedicated error classes are modelled. The code defines none and raises only `ValueError`, `IndexError`, `KeyError` and `CloseSpider`, and the model follows the code.
