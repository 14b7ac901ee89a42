TestResult.DisplayName,TestResult.Outcome,TestResult.Duration,TestResult.ResourceCount,RandomSeed
Graphs.Graph.AddNode (well-formedness) (assertion batch 1),Passed,00:00:00.1138157,25235,0
Graphs.Graph.AddNode (well-formedness) (assertion batch 2),Passed,00:00:00.0988904,26358,0
Graphs.Graph.AddNode (correctness) (assertion batch 51),Passed,00:00:00.0813837,230856,0
Graphs.Graph.AddNode (well-formedness) (assertion batch 15),Passed,00:00:00.0725608,39912,0
Graphs.Graph.AddNode (correctness) (assertion batch 47),Passed,00:00:00.0677187,156570,0
Graphs.Graph.AddNode (correctness) (assertion batch 50),Passed,00:00:00.0638981,140712,0
Graphs.Graph.AddNode (correctness) (assertion batch 19),Passed,00:00:00.0619637,108691,0
Graphs.Graph.AddNode (correctness) (assertion batch 49),Passed,00:00:00.0595972,121025,0
Graphs.Graph.AddNode (correctness) (assertion batch 46),Passed,00:00:00.0568140,153871,0
Graphs.Graph.AddNode (well-formedness) (assertion batch 7),Passed,00:00:00.0542440,41573,0
Graphs.Graph.AddNode (correctness) (assertion batch 11),Passed,00:00:00.0491389,46249,0
Graphs.Graph.AddNode (correctness) (assertion batch 43),Passed,00:00:00.0487802,70203,0
Graphs.Graph.AddNode (correctness) (assertion batch 45),Passed,00:00:00.0467605,152966,0
Graphs.Graph.AddNode (correctness) (assertion batch 52),Passed,00:00:00.0446978,47248,0
Graphs.Graph.AddNode (correctness) (assertion batch 10),Passed,00:00:00.0427793,46230,0
Graphs.Graph.AddNode (well-formedness) (assertion batch 4),Passed,00:00:00.0413755,31680,0
Graphs.Graph.AddNode (well-formedness) (assertion batch 5),Passed,00:00:00.0405668,26489,0
Graphs.Graph.AddNode (well-formedness) (assertion batch 8),Passed,00:00:00.0403908,37914,0
Graphs.Graph.AddNode (well-formedness) (assertion batch 9),Passed,00:00:00.0401973,43754,0
Graphs.Graph.AddNode (well-formedness) (assertion batch 6),Passed,00:00:00.0398666,26494,0
Graphs.Graph.AddNode (well-formedness) (assertion batch 10),Passed,00:00:00.0363785,46880,0
Graphs.Graph.AddNode (correctness) (assertion batch 32),Passed,00:00:00.0352995,46160,0
Graphs.Graph.AddNode (well-formedness) (assertion batch 3),Passed,00:00:00.0345367,26419,0
Graphs.Graph.AddNode (correctness) (assertion batch 22),Passed,00:00:00.0342305,52867,0
Graphs.Graph.AddNode (correctness) (assertion batch 56),Passed,00:00:00.0334789,54351,0
Graphs.Graph.AddNode (correctness) (assertion batch 48),Passed,00:00:00.0310647,80695,0
Graphs.Graph.AddNode (correctness) (assertion batch 16),Passed,00:00:00.0309087,63647,0
Graphs.Graph.AddNode (correctness) (assertion batch 12),Passed,00:00:00.0302791,54093,0
Graphs.Graph.AddNode (correctness) (assertion batch 25),Passed,00:00:00.0300975,80153,0
Graphs.Graph.AddNode (correctness) (assertion batch 42),Passed,00:00:00.0293835,56610,0
Graphs.Graph.AddNode (correctness) (assertion batch 20),Passed,00:00:00.0291978,47266,0
Graphs.Graph.AddNode (well-formedness) (assertion batch 12),Passed,00:00:00.0286540,44245,0
Graphs.Graph.AddNode (correctness) (assertion batch 21),Passed,00:00:00.0282333,52787,0
Graphs.Graph.AddNode (well-formedness) (assertion batch 16),Passed,00:00:00.0274436,47635,0
Graphs.Graph.AddNode (correctness) (assertion batch 37),Passed,00:00:00.0272185,56429,0
Graphs.Graph.AddNode (correctness) (assertion batch 33),Passed,00:00:00.0261102,53963,0
Graphs.Graph.AddNode (well-formedness) (assertion batch 13),Passed,00:00:00.0250493,45056,0
Graphs.Graph.AddNode (correctness) (assertion batch 26),Passed,00:00:00.0249904,47634,0
Graphs.Graph.AddNode (correctness) (assertion batch 27),Passed,00:00:00.0248533,59836,0
Graphs.Graph.AddNode (correctness) (assertion batch 13),Passed,00:00:00.0247413,46572,0
Graphs.Graph.AddNode (correctness) (assertion batch 18),Passed,00:00:00.0245342,47178,0
Graphs.Graph.AddNode (correctness) (assertion batch 44),Passed,00:00:00.0240444,71121,0
Graphs.Graph.AddNode (correctness) (assertion batch 30),Passed,00:00:00.0239733,57018,0
Graphs.Graph.AddNode (well-formedness) (assertion batch 14),Passed,00:00:00.0235124,39898,0
Graphs.Graph.AddNode (correctness) (assertion batch 29),Passed,00:00:00.0232761,49568,0
Graphs.Graph.AddNode (correctness) (assertion batch 53),Passed,00:00:00.0225280,54042,0
Graphs.Graph.AddNode (correctness) (assertion batch 38),Passed,00:00:00.0224346,54186,0
Graphs.Graph.AddNode (well-formedness) (assertion batch 11),Passed,00:00:00.0221494,37994,0
Graphs.Graph.AddNode (correctness) (assertion batch 28),Passed,00:00:00.0219178,60222,0
Graphs.Graph.AddNode (correctness) (assertion batch 15),Passed,00:00:00.0218431,46904,0
Graphs.Graph.AddNode (correctness) (assertion batch 17),Passed,00:00:00.0213413,47041,0
Graphs.Graph.AddNode (correctness) (assertion batch 24),Passed,00:00:00.0210846,53268,0
Graphs.Graph.AddNode (well-formedness) (assertion batch 17),Passed,00:00:00.0210170,48204,0
Graphs.Graph.AddNode (correctness) (assertion batch 55),Passed,00:00:00.0210106,53905,0
Graphs.Graph.AddNode (correctness) (assertion batch 23),Passed,00:00:00.0206396,53129,0
Graphs.Graph.AddNode (correctness) (assertion batch 7),Passed,00:00:00.0205287,51502,0
Graphs.Graph.AddNode (correctness) (assertion batch 9),Passed,00:00:00.0200886,53380,0
Graphs.Graph.AddNode (correctness) (assertion batch 35),Passed,00:00:00.0200360,46241,0
Graphs.Graph.AddNode (correctness) (assertion batch 54),Passed,00:00:00.0200281,47380,0
Graphs.Graph.AddNode (correctness) (assertion batch 39),Passed,00:00:00.0199902,46347,0
Graphs.Graph.AddNode (correctness) (assertion batch 31),Passed,00:00:00.0199199,46158,0
Graphs.Graph.AddNode (correctness) (assertion batch 36),Passed,00:00:00.0196438,55266,0
Graphs.Graph.AddNode (correctness) (assertion batch 40),Passed,00:00:00.0191213,46634,0
Graphs.Graph.AddNode (correctness) (assertion batch 57),Passed,00:00:00.0185642,53243,0
Graphs.Graph.AddNode (correctness) (assertion batch 14),Passed,00:00:00.0183958,46657,0
Graphs.Graph.AddNode (correctness) (assertion batch 8),Passed,00:00:00.0181781,46182,0
Graphs.Graph.AddNode (correctness) (assertion batch 34),Passed,00:00:00.0180744,46239,0
Graphs.Graph.AddNode (well-formedness) (assertion batch 18),Passed,00:00:00.0177111,37742,0
Graphs.Graph.AddNode (correctness) (assertion batch 4),Passed,00:00:00.0169551,40598,0
Graphs.Graph.AddNode (correctness) (assertion batch 2),Passed,00:00:00.0168666,35032,0
Graphs.Graph.AddNode (correctness) (assertion batch 41),Passed,00:00:00.0166825,46882,0
Graphs.Graph.AddNode (correctness) (assertion batch 5),Passed,00:00:00.0162302,40639,0
Graphs.Graph.AddNode (correctness) (assertion batch 1),Passed,00:00:00.0157180,27635,0
Graphs.Graph.AddNode (correctness) (assertion batch 6),Passed,00:00:00.0154424,40579,0
Graphs.Graph.AddNode (correctness) (assertion batch 3),Passed,00:00:00.0148279,39060,0
